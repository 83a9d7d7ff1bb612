/** The bytes of an installed body: fat header, padded code and the exception section, in the
    layout of sections II.25.4.3, II.25.4.5 and II.25.4.6 of ECMA-335. */
module FatBody {
  import opened Bytes
  import opened Encoding
  import opened Listing
  import opened Regions
  import opened StackDepth
  import opened EndToEnd

  const FAT_FORMAT: nat := 0x3
  const MORE_SECTS: nat := 0x8
  const INIT_LOCALS: nat := 0x10
  const HEADER_SIZE: nat := 12
  const SECT_EH_TABLE: Byte := 0x1
  const SECT_FAT_FORMAT: Byte := 0x40
  const SECT_SIZE: nat := 4
  const CLAUSE_SIZE: nat := 24

  /** The method attributes that pass through the rewriter unchanged. */
  datatype Attributes = Attributes(localVarSig: nat, initLocals: bool)

  function Align4(n: nat): (r: nat)
    ensures n <= r < n + 4 && r % 4 == 0
  {
    (n + 3) / 4 * 4
  }

  /** Bytes of the exception section; a method without clauses has none. */
  function SectionSize(clauses: nat): nat {
    if clauses == 0 then 0 else SECT_SIZE + CLAUSE_SIZE * clauses
  }

  function BodySize(codeSize: nat, clauses: nat): nat {
    HEADER_SIZE + Align4(codeSize) + SectionSize(clauses)
  }

  /** The unsigned sizes of the export, ten buffer bytes a node and the whole body, do not wrap. */
  predicate SizesFit(nodes: nat, clauses: nat) {
    10 * nodes < CODE_LIMIT && BodySize(10 * nodes, clauses) < TWO_32
  }

  /** Flags (12 bits) and header size in words (4 bits), MaxStack, CodeSize, LocalVarSigTok. */
  function Header(a: Attributes, maxStack: nat, codeSize: nat, clauses: nat): (r: seq<Byte>)
    ensures |r| == HEADER_SIZE
  {
    var flags := (if a.initLocals then INIT_LOCALS else 0) + (if clauses > 0 then MORE_SECTS else 0) + FAT_FORMAT;
    ToLE(flags + 0x1000 * (HEADER_SIZE / 4), 2) + ToLE(StackField(maxStack), 2) + ToLE(codeSize, 4) +
    ToLE(a.localVarSig, 4)
  }

  /** Kind and the 24-bit DataSize. */
  function SectionHeader(clauses: nat): (r: seq<Byte>)
    ensures |r| == SECT_SIZE
  {
    [SECT_EH_TABLE + SECT_FAT_FORMAT] + ToLE(SECT_SIZE + CLAUSE_SIZE * clauses, 3)
  }

  function ClauseBytes(f: FatClause): (r: seq<Byte>)
    ensures |r| == CLAUSE_SIZE
  {
    ToLE(f.flags, 4) + ToLE(f.tryOffset, 4) + ToLE(f.tryLength, 4) + ToLE(f.handlerOffset, 4) +
    ToLE(f.handlerLength, 4) + ToLE(f.tokenOrFilter, 4)
  }

  /** Where clause i stands. */
  function ClauseAt(codeSize: nat, i: nat): nat {
    HEADER_SIZE + Align4(codeSize) + SECT_SIZE + CLAUSE_SIZE * i
  }

  /** The first n clauses stand in their places. */
  ghost predicate ClausesTo(bytes: seq<Byte>, codeSize: nat, eh: seq<FatClause>, n: nat) {
    n <= |eh| && forall i {:trigger eh[i]} | 0 <= i < n :: Holds(bytes, ClauseAt(codeSize, i), ClauseBytes(eh[i]))
  }

  /** bytes is a body with this code, these clauses and these attributes; the padding is free. */
  ghost predicate IsBody(bytes: seq<Byte>, b: Body, a: Attributes, maxStack: nat) {
    && |bytes| == BodySize(|b.il|, |b.eh|)
    && Holds(bytes, 0, Header(a, maxStack, |b.il|, |b.eh|))
    && Holds(bytes, HEADER_SIZE, b.il)
    && (|b.eh| > 0 ==> Holds(bytes, HEADER_SIZE + Align4(|b.il|), SectionHeader(|b.eh|)))
    && ClausesTo(bytes, |b.il|, b.eh, |b.eh|)
  }

  // ---------- the reader of the standard ----------

  function Field(bytes: seq<Byte>, o: nat, n: nat): nat
    requires o + n <= |bytes|
  {
    FromLE(bytes[o..o + n])
  }

  function ReadClauseAt(bytes: seq<Byte>, o: nat): FatClause
    requires o + CLAUSE_SIZE <= |bytes|
  {
    FatClause(Field(bytes, o, 4), Field(bytes, o + 4, 4), Field(bytes, o + 8, 4), Field(bytes, o + 12, 4),
              Field(bytes, o + 16, 4), Field(bytes, o + 20, 4))
  }

  /** Code and clauses of a body, found through its own size fields; None when they overrun it. */
  function ReadFat(bytes: seq<Byte>): Option<Body> {
    if |bytes| < HEADER_SIZE || bytes[0] % 4 != FAT_FORMAT then None
    else
      var codeSize := Field(bytes, 4, 4);
      if HEADER_SIZE + codeSize > |bytes| then None
      else
        var il := bytes[HEADER_SIZE..HEADER_SIZE + codeSize];
        var section := HEADER_SIZE + Align4(codeSize);
        if bytes[0] / MORE_SECTS % 2 == 0 then Some(Body(il, []))
        else if section + SECT_SIZE > |bytes| || bytes[section] != SECT_EH_TABLE + SECT_FAT_FORMAT then None
        else
          var dataSize := Field(bytes, section + 1, 3);
          if dataSize < SECT_SIZE || section + dataSize > |bytes| then None
          else
            var n := (dataSize - SECT_SIZE) / CLAUSE_SIZE;
            Some(Body(il, seq(n, i requires 0 <= i < n => ReadClauseAt(bytes, section + SECT_SIZE + CLAUSE_SIZE * i))))
  }

  /** The DataSize field holds the section's size exactly when the clauses fit 24 bits. */
  lemma {:induction false} DataSizeFits(clauses: nat)
    ensures FromLE(ToLE(SECT_SIZE + CLAUSE_SIZE * clauses, 3)) == SECT_SIZE + CLAUSE_SIZE * clauses <==>
            clauses <= 699050
  {
    Pow256Values();
    assert Pow256(3) == 0x100 * Pow256(2);
    if clauses <= 699050 {
      FromToLE(SECT_SIZE + CLAUSE_SIZE * clauses, 3);
    }
  }

  ghost predicate ClauseFits(f: FatClause) {
    && f.flags < TWO_32 && f.tryOffset < TWO_32 && f.tryLength < TWO_32
    && f.handlerOffset < TWO_32 && f.handlerLength < TWO_32 && f.tokenOrFilter < TWO_32
  }

  lemma {:induction false} FieldReads(bytes: seq<Byte>, o: nat, v: nat, n: nat)
    requires Holds(bytes, o, ToLE(v, n)) && v < Pow256(n)
    ensures Field(bytes, o, n) == v
  {
    FromToLE(v, n);
  }

  lemma {:induction false} HoldsPart(bytes: seq<Byte>, o: nat, front: seq<Byte>, part: seq<Byte>, back: seq<Byte>)
    requires Holds(bytes, o, front + part + back)
    ensures Holds(bytes, o + |front|, part)
  {
    var all := front + part + back;
    assert bytes[o + |front|..o + |front| + |part|] == bytes[o..o + |all|][|front|..|front| + |part|];
    assert all[|front|..|front| + |part|] == part;
  }

  lemma {:induction false} ClauseReads(bytes: seq<Byte>, o: nat, f: FatClause)
    requires Holds(bytes, o, ClauseBytes(f)) && ClauseFits(f)
    ensures ReadClauseAt(bytes, o) == f
  {
    hide ToLE, FromLE, Pow256, Holds, Field;
    Pow256Values();
    var a, b, c, d, e, g := ToLE(f.flags, 4), ToLE(f.tryOffset, 4), ToLE(f.tryLength, 4), ToLE(f.handlerOffset, 4),
      ToLE(f.handlerLength, 4), ToLE(f.tokenOrFilter, 4);
    assert ClauseBytes(f) == [] + a + (b + c + d + e + g) == a + b + (c + d + e + g) == a + b + c + (d + e + g)
        == a + b + c + d + (e + g) == a + b + c + d + e + g == a + b + c + d + e + g + [];
    HoldsPart(bytes, o, [], a, b + c + d + e + g);
    HoldsPart(bytes, o, a, b, c + d + e + g);
    HoldsPart(bytes, o, a + b, c, d + e + g);
    HoldsPart(bytes, o, a + b + c, d, e + g);
    HoldsPart(bytes, o, a + b + c + d, e, g);
    HoldsPart(bytes, o, a + b + c + d + e, g, []);
    FieldReads(bytes, o, f.flags, 4);
    FieldReads(bytes, o + 4, f.tryOffset, 4);
    FieldReads(bytes, o + 8, f.tryLength, 4);
    FieldReads(bytes, o + 12, f.handlerOffset, 4);
    FieldReads(bytes, o + 16, f.handlerLength, 4);
    FieldReads(bytes, o + 20, f.tokenOrFilter, 4);
  }

  lemma {:induction false} HeaderReads(bytes: seq<Byte>, a: Attributes, maxStack: nat, codeSize: nat, clauses: nat)
    requires Holds(bytes, 0, Header(a, maxStack, codeSize, clauses)) && codeSize < TWO_32
    ensures |bytes| >= HEADER_SIZE && bytes[0] % 4 == FAT_FORMAT && (bytes[0] / MORE_SECTS % 2 == 0 <==> clauses == 0)
    ensures Field(bytes, 4, 4) == codeSize
    ensures Field(bytes, 2, 2) == StackField(maxStack)
    ensures bytes[0] == 0x3 + (if a.initLocals then 0x10 else 0) + (if clauses > 0 then 0x8 else 0) && bytes[1] == 0x30
    ensures a.localVarSig < TWO_32 ==> Field(bytes, 8, 4) == a.localVarSig
  {
    hide FromLE, Pow256, Field;
    Pow256Values();
    var flags := (if a.initLocals then INIT_LOCALS else 0) + (if clauses > 0 then MORE_SECTS else 0) + FAT_FORMAT;
    var w, s, c, v := ToLE(flags + 0x3000, 2), ToLE(StackField(maxStack), 2), ToLE(codeSize, 4), ToLE(a.localVarSig, 4);
    assert Header(a, maxStack, codeSize, clauses) == [] + w + (s + c + v) == w + s + (c + v) == w + s + c + v;
    HoldsPart(bytes, 0, [], w, s + c + v);
    HoldsPart(bytes, 0, w, s, c + v);
    HoldsPart(bytes, 0, w + s, c, v);
    FieldReads(bytes, 4, codeSize, 4);
    FieldReads(bytes, 2, StackField(maxStack), 2);
    if a.localVarSig < TWO_32 {
      assert w + s + c + v == w + s + c + v + [];
      HoldsPart(bytes, 0, w + s + c, v, []);
      FieldReads(bytes, 8, a.localVarSig, 4);
    }
    assert bytes[0] == bytes[0..2][0] == w[0] == (flags + 0x3000) % 0x100;
    assert w[1] == ToLE((flags + 0x3000) / 0x100, 1)[0] == (flags + 0x3000) / 0x100;
    assert bytes[1] == bytes[0..2][1] == w[1];
  }

  /** A little-endian word of the body. */
  function WordAt(bytes: seq<Byte>, o: nat): nat
    requires o + 4 <= |bytes|
  {
    WordOf(bytes[o], bytes[o + 1], bytes[o + 2], bytes[o + 3])
  }

  lemma {:induction false} FieldIsWord(bytes: seq<Byte>, o: nat)
    requires o + 4 <= |bytes|
    ensures Field(bytes, o, 4) == WordAt(bytes, o)
  {
    WordBytes(0, bytes[o..o + 4]);
  }

  lemma {:induction false} ShortFieldReads(bytes: seq<Byte>, v: nat)
    requires |bytes| >= 4 && Field(bytes, 2, 2) == v
    ensures bytes[2] == v % 0x100 && bytes[3] == v / 0x100
  {
    Pow256Values();
    FromLEByte(bytes[2..4], 0);
    FromLEByte(bytes[2..4], 1);
  }

  /** The header of a body, byte by byte: format, flags and size; stack limit; code size; signature. */
  lemma {:induction false} HeaderByNumber(bytes: seq<Byte>, b: Body, a: Attributes, maxStack: nat)
    requires IsBody(bytes, b, a, maxStack) && |b.il| < TWO_32
    ensures |bytes| == 12 + (|b.il| + 3) / 4 * 4 + (if |b.eh| == 0 then 0 else 4 + 24 * |b.eh|)
    ensures bytes[0] == 0x3 + (if a.initLocals then 0x10 else 0) + (if |b.eh| > 0 then 0x8 else 0) && bytes[1] == 0x30
    ensures bytes[2] == maxStack % 0x100 && bytes[3] == maxStack / 0x100 % 0x100
    ensures WordAt(bytes, 4) == |b.il| && bytes[12..12 + |b.il|] == b.il
    ensures a.localVarSig < TWO_32 ==> WordAt(bytes, 8) == a.localVarSig
  {
    hide Header, Field;
    HeaderReads(bytes, a, maxStack, |b.il|, |b.eh|);
    FieldIsWord(bytes, 4);
    FieldIsWord(bytes, 8);
    ShortFieldReads(bytes, StackField(maxStack));
    assert maxStack % 0x1_0000 % 0x100 == maxStack % 0x100 && maxStack % 0x1_0000 / 0x100 == maxStack / 0x100 % 0x100;
  }

  /** The exception section of a body, byte by byte: kind, 24-bit size, and six words a clause. */
  lemma {:induction false} SectionByNumber(bytes: seq<Byte>, b: Body, a: Attributes, maxStack: nat, c: nat)
    requires IsBody(bytes, b, a, maxStack) && c < |b.eh| <= 699050 && ClauseFits(b.eh[c])
    ensures var s, size := 12 + (|b.il| + 3) / 4 * 4, 4 + 24 * |b.eh|;
            && s % 4 == 0 && s + size == |bytes| && bytes[s] == 0x41
            && bytes[s + 1] == size % 0x100 && bytes[s + 2] == size / 0x100 % 0x100 && bytes[s + 3] == size / 0x1_0000
    ensures var o, f := 16 + (|b.il| + 3) / 4 * 4 + 24 * c, b.eh[c];
            && o + 24 <= |bytes|
            && WordAt(bytes, o) == f.flags && WordAt(bytes, o + 4) == f.tryOffset && WordAt(bytes, o + 8) == f.tryLength
            && WordAt(bytes, o + 12) == f.handlerOffset && WordAt(bytes, o + 16) == f.handlerLength
            && WordAt(bytes, o + 20) == f.tokenOrFilter
  {
    hide Header, SectionHeader, ClauseBytes, FromLE, WordAt;
    var s, o := 12 + (|b.il| + 3) / 4 * 4, 16 + (|b.il| + 3) / 4 * 4 + 24 * c;
    SectionReads(bytes, s, |b.eh|);
    Pow256Values();
    FromLEByte(bytes[s + 1..s + 4], 0);
    FromLEByte(bytes[s + 1..s + 4], 1);
    FromLEByte(bytes[s + 1..s + 4], 2);
    assert Holds(bytes, ClauseAt(|b.il|, c), ClauseBytes(b.eh[c]));
    ClauseReads(bytes, o, b.eh[c]);
    FieldIsWord(bytes, o);
    FieldIsWord(bytes, o + 4);
    FieldIsWord(bytes, o + 8);
    FieldIsWord(bytes, o + 12);
    FieldIsWord(bytes, o + 16);
    FieldIsWord(bytes, o + 20);
  }

  /** Every part starts where its predecessor ends, the exception section on a multiple of four,
      and the last clause ends with the body. */
  lemma {:induction false} PartsAreDisjoint(codeSize: nat, clauses: nat, i: nat)
    requires i < clauses
    ensures HEADER_SIZE + codeSize <= HEADER_SIZE + Align4(codeSize) < ClauseAt(codeSize, i)
    ensures (HEADER_SIZE + Align4(codeSize)) % 4 == 0
    ensures ClauseAt(codeSize, i) + CLAUSE_SIZE <= BodySize(codeSize, clauses)
    ensures i + 1 < clauses ==> ClauseAt(codeSize, i) + CLAUSE_SIZE == ClauseAt(codeSize, i + 1)
    ensures i + 1 == clauses ==> ClauseAt(codeSize, i) + CLAUSE_SIZE == BodySize(codeSize, clauses)
  {
  }

  /** A reader of the standard finds the code and the clauses that were written. */
  lemma {:induction false} BodyReads(bytes: seq<Byte>, b: Body, a: Attributes, maxStack: nat)
    requires IsBody(bytes, b, a, maxStack) && |b.il| < CODE_LIMIT && |b.eh| <= 699050
    requires forall i {:trigger b.eh[i]} | 0 <= i < |b.eh| :: ClauseFits(b.eh[i])
    ensures ReadFat(bytes) == Some(b)
  {
    hide Header, SectionHeader, ClauseBytes, ReadClauseAt, Field, FromLE, ToLE;
    HeaderReads(bytes, a, maxStack, |b.il|, |b.eh|);
    if |b.eh| > 0 {
      SectionReads(bytes, HEADER_SIZE + Align4(|b.il|), |b.eh|);
      forall i | 0 <= i < |b.eh|
        ensures ReadClauseAt(bytes, ClauseAt(|b.il|, i)) == b.eh[i]
      {
        ClauseReads(bytes, ClauseAt(|b.il|, i), b.eh[i]);
      }
      assert ReadFat(bytes).value.eh == b.eh;
    }
  }

  lemma {:induction false} SectionReads(bytes: seq<Byte>, o: nat, clauses: nat)
    requires Holds(bytes, o, SectionHeader(clauses)) && clauses <= 699050
    ensures o + SECT_SIZE <= |bytes| && bytes[o] == SECT_EH_TABLE + SECT_FAT_FORMAT
    ensures Field(bytes, o + 1, 3) == SECT_SIZE + CLAUSE_SIZE * clauses
  {
    hide FromLE, ToLE;
    DataSizeFits(clauses);
    var size := ToLE(SECT_SIZE + CLAUSE_SIZE * clauses, 3);
    assert SectionHeader(clauses) == [SECT_EH_TABLE + SECT_FAT_FORMAT] + size + [];
    HoldsPart(bytes, o, [SECT_EH_TABLE + SECT_FAT_FORMAT], size, []);
    assert bytes[o] == bytes[o..o + SECT_SIZE][0];
  }
}
