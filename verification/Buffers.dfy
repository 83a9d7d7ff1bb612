/** Writing bytes into a fixed buffer. */
module Buffers {
  import opened Bytes
  import opened Encoding

  /** s with bs written over it from position o. */
  function Patch(s: seq<Byte>, o: nat, bs: seq<Byte>): (r: seq<Byte>)
    requires o + |bs| <= |s|
    ensures |r| == |s|
  {
    s[..o] + bs + s[o + |bs|..]
  }

  /** An unaligned store of the bytes at o. */
  method Emit(buffer: array<Byte>, o: nat, bs: seq<Byte>)
    requires o + |bs| <= buffer.Length
    modifies buffer
    ensures buffer[..] == Patch(old(buffer[..]), o, bs)
  {
    var i := 0;
    while i < |bs|
      invariant i <= |bs|
      invariant buffer[..] == Patch(old(buffer[..]), o, bs[..i])
    {
      buffer[o + i] := bs[i];
      i := i + 1;
      assert bs[..i] == bs[..i - 1] + [bs[i - 1]];
    }
    assert bs[..|bs|] == bs;
  }

  lemma {:induction false} PatchHolds(s: seq<Byte>, o: nat, bs: seq<Byte>)
    requires o + |bs| <= |s|
    ensures Holds(Patch(s, o, bs), o, bs)
  {
    assert Patch(s, o, bs)[o..o + |bs|] == bs;
  }

  /** A store leaves what stands elsewhere. */
  lemma {:induction false} PatchKeeps(s: seq<Byte>, o: nat, bs: seq<Byte>, at: nat, xs: seq<Byte>)
    requires o + |bs| <= |s| && Holds(s, at, xs) && (at + |xs| <= o || o + |bs| <= at)
    ensures Holds(Patch(s, o, bs), at, xs)
  {
    var r := Patch(s, o, bs);
    assert forall i | at <= i < at + |xs| :: r[i] == s[i];
    assert r[at..at + |xs|] == s[at..at + |xs|];
  }

  lemma {:induction false} PatchKeepsPrefix(s: seq<Byte>, o: nat, bs: seq<Byte>, n: nat)
    requires o + |bs| <= |s| && n <= o
    ensures Patch(s, o, bs)[..n] == s[..n]
  {
  }

  /** What stands in front of n is unaffected by anything from n on. */
  lemma {:induction false} HoldsInPrefix(s: seq<Byte>, r: seq<Byte>, n: nat, at: nat, xs: seq<Byte>)
    requires n <= |s| && n <= |r| && s[..n] == r[..n] && at + |xs| <= n && Holds(s, at, xs)
    ensures Holds(r, at, xs)
  {
    assert r[at..at + |xs|] == r[..n][at..at + |xs|];
    assert s[at..at + |xs|] == s[..n][at..at + |xs|];
  }

  lemma {:induction false} HoldsInSuffix(s: seq<Byte>, r: seq<Byte>, n: nat, at: nat, xs: seq<Byte>)
    requires n <= |s| == |r| && s[n..] == r[n..] && n <= at && Holds(s, at, xs)
    ensures Holds(r, at, xs)
  {
    forall i | at <= i < at + |xs|
      ensures r[i] == s[i]
    {
      assert r[n..][i - n] == s[n..][i - n];
    }
    assert r[at..at + |xs|] == s[at..at + |xs|];
  }

  /** Two stores side by side. */
  lemma {:induction false} HoldsTogether(s: seq<Byte>, o: nat, a: seq<Byte>, b: seq<Byte>)
    requires Holds(s, o, a) && Holds(s, o + |a|, b)
    ensures Holds(s, o, a + b)
  {
    assert s[o..o + |a| + |b|] == s[o..o + |a|] + s[o + |a|..o + |a| + |b|];
  }
}
