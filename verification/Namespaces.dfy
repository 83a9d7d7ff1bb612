/** Which types of a module are instrumented: those whose own name, or the name of a type around
    them, starts with the configured namespace. */
module Namespaces {
  import opened Bytes

  /** Buffers for type names hold this many characters and a terminator. */
  const NAME_LIMIT: nat := 1023

  // Visibilities of nested types, section II.23.1.15 of ECMA-335.
  const TD_NESTED_PUBLIC: bv32 := 2
  const TD_NESTED_PRIVATE: bv32 := 3
  const TD_NESTED_FAMILY: bv32 := 4
  const TD_NESTED_ASSEMBLY: bv32 := 5
  const TD_NESTED_FAM_AND_ASSEM: bv32 := 6
  const TD_NESTED_FAM_OR_ASSEM: bv32 := 7
  const TD_VISIBILITY_MASK: bv32 := 7

  datatype TypeDef = TypeDef(name: string, flags: bv32)

  datatype TypeInfo = TypeInfo(id: nat, name: string, flags: bv32)

  /** A module's metadata: its types, and the enclosing type of each nested one. */
  datatype Scope = Scope(types: map<nat, TypeDef>, enclosing: map<nat, nat>)

  /** The comparison of the first |filter| characters. */
  predicate StartsWith(name: string, filter: string) {
    |filter| <= |name| && name[..|filter|] == filter
  }

  /** The comparison is the prefix relation: it holds when the rest of the name may be anything. */
  lemma {:induction false} StartsWithIsPrefix(name: string, filter: string)
    ensures StartsWith(name, filter) <==> filter <= name
    ensures StartsWith(name, filter) <==> exists rest: string :: name == filter + rest
  {
    if StartsWith(name, filter) {
      assert name == filter + name[|filter|..];
    }
    if rest: string :| name == filter + rest {
      assert (filter + rest)[..|filter|] == filter;
    }
  }

  /** A name as it arrives in a buffer. */
  function Shown(name: string): (r: string)
    ensures |r| <= NAME_LIMIT
  {
    if |name| <= NAME_LIMIT then name else name[..NAME_LIMIT]
  }

  predicate IsNestedType(flags: bv32) {
    || flags & TD_NESTED_PUBLIC != 0
    || flags & TD_NESTED_ASSEMBLY != 0
    || flags & TD_NESTED_FAM_AND_ASSEM != 0
    || flags & TD_NESTED_FAM_OR_ASSEM != 0
    || flags & TD_NESTED_FAMILY != 0
    || flags & TD_NESTED_PRIVATE != 0
  }

  /** The visibility of a nested type. */
  predicate HasNestedVisibility(flags: bv32) {
    flags & TD_VISIBILITY_MASK >= TD_NESTED_PUBLIC
  }

  /** The test accepts every visibility but tdNotPublic: all nested ones, and plain public too. */
  lemma {:induction false} NestedTestIsLoose(flags: bv32)
    ensures IsNestedType(flags) <==> flags & 7 != 0
    ensures IsNestedType(flags) <==> HasNestedVisibility(flags) || flags & 7 == 1
    ensures HasNestedVisibility(flags) <==> 2 <= flags & 7 <= 7
  {
  }

  // ---------- what the walk is for ----------

  /** Entry i + 1 of a chain encloses entry i. */
  ghost predicate Link(s: Scope, chain: seq<nat>, i: nat)
    requires i + 1 < |chain|
  {
    chain[i] in s.enclosing && chain[i + 1] == s.enclosing[chain[i]]
  }

  /** chain leads from d outwards through enclosing types. */
  ghost predicate Outwards(s: Scope, d: nat, chain: seq<nat>) {
    && |chain| > 0 && chain[0] == d
    && forall i {:trigger Link(s, chain, i)} | 0 <= i < |chain| - 1 :: Link(s, chain, i)
  }

  ghost predicate NameMatches(s: Scope, d: nat, filter: string) {
    d in s.types && filter <= s.types[d].name
  }

  /** Some type around d, however far out, has a name in the namespace. */
  ghost predicate EnclosedInNamespace(s: Scope, d: nat, filter: string) {
    exists chain {:trigger Outwards(s, d, chain)} ::
      Outwards(s, d, chain) && |chain| > 1 && NameMatches(s, chain[|chain| - 1], filter)
  }

  /** The type itself or one around it has a name in the namespace. */
  ghost predicate InNamespace(s: Scope, d: nat, filter: string) {
    NameMatches(s, d, filter) || EnclosedInNamespace(s, d, filter)
  }

  ghost predicate Ranks(s: Scope, rank: nat -> nat) {
    forall d {:trigger s.enclosing[d]} | d in s.enclosing :: rank(s.enclosing[d]) < rank(d)
  }

  /** No type encloses itself. */
  ghost predicate Acyclic(s: Scope) {
    exists rank: nat -> nat :: Ranks(s, rank)
  }

  ghost function RankOf(s: Scope): (rank: nat -> nat)
    requires Acyclic(s)
    ensures Ranks(s, rank)
  {
    var rank: nat -> nat :| Ranks(s, rank);
    rank
  }

  /** Enclosing types are types of the module, and nested types have a nested visibility. */
  ghost predicate Consistent(s: Scope) {
    forall d {:trigger s.enclosing[d]} | d in s.enclosing ::
      s.enclosing[d] in s.types && (d in s.types ==> HasNestedVisibility(s.types[d].flags))
  }

  /** Both conditions on the metadata, by visibility number and by a rank of one's own. */
  lemma {:induction false} SoundMetadata(s: Scope, rank: nat -> nat)
    ensures (forall d {:trigger s.enclosing[d]} | d in s.enclosing :: rank(s.enclosing[d]) < rank(d)) ==> Acyclic(s)
    ensures Consistent(s) <==> forall d {:trigger s.enclosing[d]} | d in s.enclosing ::
                                 s.enclosing[d] in s.types && (d in s.types ==> s.types[d].flags & 7 >= 2)
  {
    if forall d {:trigger s.enclosing[d]} | d in s.enclosing :: rank(s.enclosing[d]) < rank(d) {
      assert Ranks(s, rank);
    }
  }

  // ---------- the walk ----------

  /** The walk from d; None when a query for an enclosing type's properties raises an error. */
  ghost function Walk(s: Scope, d: nat, filter: string): Option<bool>
    requires Acyclic(s)
    decreases RankOf(s)(d)
  {
    if d !in s.enclosing then Some(false)
    else
      var around := s.enclosing[d];
      if around !in s.types then None
      else if StartsWith(Shown(s.types[around].name), filter) then Some(true)
      else if !IsNestedType(s.types[around].flags) then Some(false)
      else Walk(s, around, filter)
  }

  method IsNestedTypeInNamespace(s: Scope, d: nat, filter: string) returns (r: Option<bool>)
    requires Acyclic(s)
    ensures r == Walk(s, d, filter)
  {
    var typeDef := d;
    while true
      invariant Walk(s, d, filter) == Walk(s, typeDef, filter)
      decreases RankOf(s)(typeDef)
    {
      if typeDef !in s.enclosing {
        return Some(false);
      }
      var enclosingClass := s.enclosing[typeDef];
      if enclosingClass !in s.types {
        return None;
      }
      if StartsWith(Shown(s.types[enclosingClass].name), filter) {
        return Some(true);
      }
      if !IsNestedType(s.types[enclosingClass].flags) {
        return Some(false);
      }
      typeDef := enclosingClass;
    }
  }

  lemma {:induction false} ShownMatches(name: string, filter: string)
    ensures StartsWith(Shown(name), filter) <==> |filter| <= 1023 && filter <= name
  {
    if |filter| <= NAME_LIMIT < |name| {
      assert Shown(name)[..|filter|] == name[..|filter|];
    }
  }

  /** One step outwards. */
  lemma {:induction false} EnclosedStep(s: Scope, d: nat, filter: string)
    requires d in s.enclosing
    ensures EnclosedInNamespace(s, d, filter) <==> InNamespace(s, s.enclosing[d], filter)
  {
    var around := s.enclosing[d];
    if EnclosedInNamespace(s, d, filter) {
      var chain :| Outwards(s, d, chain) && |chain| > 1 && NameMatches(s, chain[|chain| - 1], filter);
      assert Link(s, chain, 0);
      ChainTail(s, d, chain);
    }
    if InNamespace(s, around, filter) {
      var chain := [around];
      if !NameMatches(s, around, filter) {
        chain :| Outwards(s, around, chain) && |chain| > 1 && NameMatches(s, chain[|chain| - 1], filter);
      }
      ChainLonger(s, d, chain);
    }
  }

  lemma {:induction false} ChainTail(s: Scope, d: nat, chain: seq<nat>)
    requires Outwards(s, d, chain) && |chain| > 1
    ensures Outwards(s, chain[1], chain[1..])
  {
    forall i | 0 <= i < |chain[1..]| - 1
      ensures Link(s, chain[1..], i)
    {
      var next := i + 1;
      assert Link(s, chain, next);
    }
  }

  lemma {:induction false} ChainLonger(s: Scope, d: nat, chain: seq<nat>)
    requires d in s.enclosing && Outwards(s, s.enclosing[d], chain)
    ensures Outwards(s, d, [d] + chain)
  {
    var longer := [d] + chain;
    forall i | 0 <= i < |longer| - 1
      ensures Link(s, longer, i)
    {
      if i > 0 {
        var before := i - 1;
        assert Link(s, chain, before);
      }
    }
  }

  lemma {:induction false} FirstLink(s: Scope, d: nat, chain: seq<nat>)
    requires Outwards(s, d, chain) && |chain| > 1
    ensures d in s.enclosing
  {
    assert Link(s, chain, 0);
  }

  lemma {:induction false} NotEnclosed(s: Scope, d: nat, filter: string)
    requires d !in s.enclosing
    ensures !EnclosedInNamespace(s, d, filter)
  {
    if EnclosedInNamespace(s, d, filter) {
      var chain :| Outwards(s, d, chain) && |chain| > 1 && NameMatches(s, chain[|chain| - 1], filter);
      FirstLink(s, d, chain);
    }
  }

  /** The walk finds exactly the types with a matching type around them, although its stop test
      lets plain public types pass; a filter longer than a name buffer never matches. */
  lemma {:induction false} WalkFindsNamespace(s: Scope, d: nat, filter: string)
    requires Acyclic(s) && Consistent(s)
    ensures Walk(s, d, filter) == Some(|filter| <= 1023 && EnclosedInNamespace(s, d, filter))
    decreases RankOf(s)(d)
  {
    hide EnclosedInNamespace, StartsWith, Shown, IsNestedType, HasNestedVisibility;
    if d !in s.enclosing {
      NotEnclosed(s, d, filter);
    } else {
      var around := s.enclosing[d];
      EnclosedStep(s, d, filter);
      ShownMatches(s.types[around].name, filter);
      NestedTestIsLoose(s.types[around].flags);
      if around !in s.enclosing {
        NotEnclosed(s, around, filter);
      }
      WalkFindsNamespace(s, around, filter);
    }
  }

  // ---------- the walk on any metadata ----------

  /** The walk goes on from d: a known type whose shown name does not match and whose visibility is not
      that of a plain non-public type. */
  predicate GoesOn(s: Scope, d: nat, filter: string) {
    d in s.types && !(filter <= Shown(s.types[d].name)) && s.types[d].flags & 7 != 0
  }

  /** chain leads from d outwards, and the walk goes on from every type it passes. */
  ghost predicate Walks(s: Scope, d: nat, filter: string, chain: seq<nat>) {
    && Outwards(s, d, chain) && |chain| > 1
    && forall i {:trigger chain[i]} | 0 < i < |chain| - 1 :: GoesOn(s, chain[i], filter)
  }

  /** The walk comes to a type with a matching name, or to one the module does not have. */
  ghost predicate ComesTo(s: Scope, d: nat, filter: string, known: bool) {
    exists chain {:trigger Walks(s, d, filter, chain)} ::
      && Walks(s, d, filter, chain)
      && var last := chain[|chain| - 1];
         if known then last in s.types && filter <= Shown(s.types[last].name) else last !in s.types
  }

  /** On any acyclic metadata: the walk is true exactly when it comes to a matching type, and raises an
      error exactly when it comes to an unknown one. */
  lemma {:induction false} WalkExactly(s: Scope, d: nat, filter: string)
    requires Acyclic(s)
    ensures Walk(s, d, filter) == Some(true) <==> ComesTo(s, d, filter, true)
    ensures Walk(s, d, filter) == None <==> ComesTo(s, d, filter, false)
    decreases RankOf(s)(d)
  {
    hide ComesTo, StartsWith, Shown, IsNestedType;
    ComesStep(s, d, filter, true);
    ComesStep(s, d, filter, false);
    if d in s.enclosing {
      var around := s.enclosing[d];
      if around in s.types {
        StartsWithIsPrefix(Shown(s.types[around].name), filter);
        NestedTestIsLoose(s.types[around].flags);
      }
      WalkExactly(s, around, filter);
    }
  }

  lemma {:induction false} ComesStep(s: Scope, d: nat, filter: string, known: bool)
    ensures ComesTo(s, d, filter, known) <==>
            && d in s.enclosing
            && var around := s.enclosing[d];
               || (if known then around in s.types && filter <= Shown(s.types[around].name) else around !in s.types)
               || (GoesOn(s, around, filter) && ComesTo(s, around, filter, known))
  {
    hide Shown, GoesOn;
    if ComesTo(s, d, filter, known) {
      var chain :| Walks(s, d, filter, chain) &&
                   var last := chain[|chain| - 1];
                   if known then last in s.types && filter <= Shown(s.types[last].name) else last !in s.types;
      assert Link(s, chain, 0);
      if |chain| > 2 {
        ChainTail(s, d, chain);
        var rest := chain[1..];
        assert forall i {:trigger rest[i]} | 0 < i < |rest| - 1 :: rest[i] == chain[i + 1];
        assert GoesOn(s, chain[1], filter);
        assert Walks(s, chain[1], filter, rest);
      }
    }
    if d in s.enclosing {
      var around := s.enclosing[d];
      if if known then around in s.types && filter <= Shown(s.types[around].name) else around !in s.types {
        ChainLonger(s, d, [around]);
        assert Walks(s, d, filter, [d] + [around]);
      }
      if GoesOn(s, around, filter) && ComesTo(s, around, filter, known) {
        var chain :| Walks(s, around, filter, chain) &&
                     var last := chain[|chain| - 1];
                     if known then last in s.types && filter <= Shown(s.types[last].name) else last !in s.types;
        ChainLonger(s, d, chain);
        var longer := [d] + chain;
        assert forall i {:trigger longer[i]} | 0 < i < |longer| :: longer[i] == chain[i - 1];
        assert Walks(s, d, filter, longer);
      }
    }
  }

  /** info is what the enumeration reports for a type: only names that fit the buffer get there. */
  ghost predicate Describes(s: Scope, info: TypeInfo) {
    && info.id in s.types && info.name == s.types[info.id].name && info.flags == s.types[info.id].flags
    && |info.name| <= NAME_LIMIT
  }

  ghost function TypeInNamespace(s: Scope, info: TypeInfo, filter: string): Option<bool>
    requires Acyclic(s)
  {
    if StartsWith(info.name, filter) then Some(true)
    else if IsNestedType(info.flags) then Walk(s, info.id, filter)
    else Some(false)
  }

  method IsTypeInNamespace(s: Scope, info: TypeInfo, filter: string) returns (r: Option<bool>)
    requires Acyclic(s)
    ensures r == TypeInNamespace(s, info, filter)
    ensures Consistent(s) && Describes(s, info) ==> r == Some(|filter| <= 1023 && InNamespace(s, info.id, filter))
  {
    if StartsWith(info.name, filter) {
      r := Some(true);
    } else if IsNestedType(info.flags) {
      r := IsNestedTypeInNamespace(s, info.id, filter);
    } else {
      r := Some(false);
    }
    TypeTestIsExact(s, info, filter);
  }

  /** A type passes exactly when it is in the namespace, provided the filter fits a name buffer. */
  lemma {:induction false} TypeTestIsExact(s: Scope, info: TypeInfo, filter: string)
    requires Acyclic(s)
    ensures Consistent(s) && Describes(s, info) ==>
              TypeInNamespace(s, info, filter) == Some(|filter| <= 1023 && InNamespace(s, info.id, filter))
  {
    hide EnclosedInNamespace, IsNestedType, HasNestedVisibility;
    if Consistent(s) && Describes(s, info) {
      NestedTestIsLoose(info.flags);
      WalkFindsNamespace(s, info.id, filter);
      if info.id !in s.enclosing {
        NotEnclosed(s, info.id, filter);
      }
    }
  }

  /** On any acyclic metadata: true exactly for a matching name, or a visibility other than plain
      non-public and a walk that comes to a match; an error exactly when that walk comes to one. */
  lemma {:induction false} TypeTestOnAny(s: Scope, info: TypeInfo, filter: string)
    requires Acyclic(s)
    ensures TypeInNamespace(s, info, filter) == Some(true) <==>
            filter <= info.name || (info.flags & 7 != 0 && ComesTo(s, info.id, filter, true))
    ensures TypeInNamespace(s, info, filter) == None <==>
            !(filter <= info.name) && info.flags & 7 != 0 && ComesTo(s, info.id, filter, false)
  {
    hide ComesTo, StartsWith, IsNestedType;
    StartsWithIsPrefix(info.name, filter);
    NestedTestIsLoose(info.flags);
    WalkExactly(s, info.id, filter);
  }

  // ---------- the types of a module to instrument ----------

  ghost predicate DescribesAll(s: Scope, infos: seq<TypeInfo>) {
    forall i {:trigger infos[i]} | 0 <= i < |infos| :: Describes(s, infos[i])
  }

  /** The entries of a type list that pass the test, in their order. */
  ghost function Selected(s: Scope, infos: seq<TypeInfo>, filter: string): seq<TypeInfo>
    requires Acyclic(s)
  {
    if |infos| == 0 then []
    else
      var last := infos[|infos| - 1];
      Selected(s, infos[..|infos| - 1], filter) + if TypeInNamespace(s, last, filter) == Some(true) then [last] else []
  }

  /** Removes the types outside the namespace; an error of the test ends the removal. */
  method GetModuleTypesToInstrument(
      s: Scope, moduleTypes: seq<TypeInfo>, filter: string) returns (kept: Option<seq<TypeInfo>>)
    requires Acyclic(s)
    ensures kept.Some? <==> forall i {:trigger moduleTypes[i]} | 0 <= i < |moduleTypes| ::
            TypeInNamespace(s, moduleTypes[i], filter).Some?
    ensures kept.Some? ==> kept.value == Selected(s, moduleTypes, filter)
  {
    var rest := [];
    for i := 0 to |moduleTypes|
      invariant rest == Selected(s, moduleTypes[..i], filter)
      invariant forall k {:trigger moduleTypes[k]} | 0 <= k < i :: TypeInNamespace(s, moduleTypes[k], filter).Some?
    {
      var inside := IsTypeInNamespace(s, moduleTypes[i], filter);
      if inside.None? {
        return None;
      }
      if inside.value {
        rest := rest + [moduleTypes[i]];
      }
      assert moduleTypes[..i + 1][..i] == moduleTypes[..i];
    }
    assert moduleTypes[..|moduleTypes|] == moduleTypes;
    return Some(rest);
  }

  ghost predicate Passes(s: Scope, info: TypeInfo, filter: string) {
    |filter| <= 1023 && InNamespace(s, info.id, filter)
  }

  /** What is kept is the list without the types outside the namespace: at names, in increasing order,
      the places of all types inside it, and these types stand in the result in this order. */
  lemma {:induction false} SelectedInOrder(s: Scope, infos: seq<TypeInfo>, filter: string) returns (at: seq<nat>)
    requires Acyclic(s) && Consistent(s) && DescribesAll(s, infos)
    ensures |at| == |Selected(s, infos, filter)|
    ensures forall k {:trigger at[k]} | 0 <= k < |at| ::
              at[k] < |infos| && Passes(s, infos[at[k]], filter) && Selected(s, infos, filter)[k] == infos[at[k]]
    ensures forall a, b {:trigger at[a], at[b]} | 0 <= a < b < |at| :: at[a] < at[b]
    ensures forall i: nat {:trigger infos[i]} | i < |infos| && Passes(s, infos[i], filter) :: i in at
  {
    hide InNamespace, TypeInNamespace, Acyclic, Consistent;
    at := [];
    if |infos| > 0 {
      var last := |infos| - 1;
      at := SelectedInOrder(s, infos[..last], filter);
      assert forall i: nat {:trigger infos[i]} | i < last :: infos[..last][i] == infos[i];
      TypeTestIsExact(s, infos[last], filter);
      if Passes(s, infos[last], filter) {
        at := at + [last];
      }
    }
  }

  /** Each type is kept as often as it is listed, or not at all. */
  lemma {:induction false} SelectedCounts(s: Scope, infos: seq<TypeInfo>, filter: string, info: TypeInfo)
    requires Acyclic(s) && Consistent(s) && DescribesAll(s, infos)
    ensures multiset(Selected(s, infos, filter))[info] == if Passes(s, info, filter) then multiset(infos)[info] else 0
  {
    hide InNamespace, TypeInNamespace, Acyclic, Consistent;
    if |infos| > 0 {
      SelectedCounts(s, infos[..|infos| - 1], filter, info);
      TypeTestIsExact(s, infos[|infos| - 1], filter);
      assert infos == infos[..|infos| - 1] + [infos[|infos| - 1]];
    }
  }

  /** A listed type is kept exactly when it is in the namespace, and nothing else is. */
  lemma {:induction false} SelectedExactly(s: Scope, infos: seq<TypeInfo>, filter: string, info: TypeInfo)
    requires Acyclic(s) && Consistent(s) && DescribesAll(s, infos)
    ensures info in Selected(s, infos, filter) <==>
            info in infos && |filter| <= 1023 && InNamespace(s, info.id, filter)
  {
    hide InNamespace, TypeInNamespace, Acyclic, Consistent;
    if |infos| > 0 {
      SelectedExactly(s, infos[..|infos| - 1], filter, info);
      TypeTestIsExact(s, infos[|infos| - 1], filter);
      assert infos == infos[..|infos| - 1] + [infos[|infos| - 1]];
    }
  }
}
