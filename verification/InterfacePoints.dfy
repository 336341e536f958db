/** The scores of an interface comparison by what is counted: so many half points for each type, member,
    function and parameter that has what the original has. */
module InterfacePoints {
  import opened Ir
  import opened InterfaceScore

  /** How many of the first `n` numbers pass the test. */
  function Count(n: nat, test: nat -> bool): nat {
    if n == 0 then 0 else Count(n - 1, test) + if test(n - 1) then 1 else 0
  }

  function Sum(n: nat, f: nat -> nat): nat { if n == 0 then 0 else Sum(n - 1, f) + f(n - 1) }

  /** `e` of `n` points, in percent; full when there are none. */
  function Percent(e: nat, n: nat): real { if n == 0 then 100.0 else 100.0 * e as real / n as real }

  lemma ScoreIsPercent(t: Tally)
    ensures Score(t) == Percent(t.earned, t.total)
  {
  }

  /** A sum of tallies, by what they earn and what they could. */
  lemma {:induction false} SumIs<A>(items: seq<A>, tally: A -> Tally, earned: nat -> nat, total: nat -> nat)
    requires forall i: nat :: i < |items| ==> tally(items[i]) == Tally(earned(i), total(i))
    ensures InterfaceScore.Sum(items, tally) == Tally(Sum(|items|, earned), Sum(|items|, total))
    decreases |items|
  {
    if items != [] {
      var n := |items| - 1;
      SumIs(items[..n], tally, earned, total);
      SumEnds(items[..n], items[n], tally);
      assert items == items[..n] + [items[n]];
    }
  }

  // ---------------------------------------------------------------------
  // Tables
  // ---------------------------------------------------------------------

  /** Looking a name up finds its entry. */
  lemma {:induction false} LookupExactly<V>(table: Table<V>, name: string, v: V)
    requires IsTable(table)
    ensures Get(table, name) == Some(v) <==> (name, v) in table
  {
    if table != [] {
      LookupExactly(table[1..], name, v);
      forall i | 0 <= i < |table| - 1 ensures table[1..][i] == table[i + 1] && table[i + 1].0 != table[0].0 {}
      assert (name, v) in table <==> table[0] == (name, v) || (name, v) in table[1..];
    }
  }

  // ---------------------------------------------------------------------
  // Types
  // ---------------------------------------------------------------------

  predicate IsThere<V>(table: Table<V>, name: string) { Get(table, name).Some? }

  predicate HasMember(t: TypeInfo, found: TypeInfo, i: nat) { i < |t.members| && IsThere(found.members, t.members[i].0) }

  /** The member of the decompiled type. */
  function Other(t: TypeInfo, found: TypeInfo, i: nat): MemberInfo
    requires HasMember(t, found, i)
  {
    Get(found.members, t.members[i].0).value
  }

  predicate HasFieldType(t: TypeInfo, found: TypeInfo, i: nat) {
    HasMember(t, found, i) && Other(t, found, i).typeStr == t.members[i].1.typeStr
  }

  predicate WantsDiscriminant(t: TypeInfo, found: TypeInfo, i: nat) {
    HasMember(t, found, i) && t.members[i].1.discriminant.Some?
  }

  predicate HasDiscriminant(t: TypeInfo, found: TypeInfo, i: nat) {
    WantsDiscriminant(t, found, i) && Other(t, found, i).discriminant == t.members[i].1.discriminant
  }

  predicate WantsPayload(t: TypeInfo, found: TypeInfo, i: nat) {
    HasMember(t, found, i) && t.members[i].1.typeStr.Some?
  }

  predicate HasPayload(t: TypeInfo, found: TypeInfo, i: nat) { WantsPayload(t, found, i) && HasFieldType(t, found, i) }

  // The tests as functions of the place.

  function HasMemberAt(t: TypeInfo, g: TypeInfo): nat -> bool { (i: nat) => HasMember(t, g, i) }

  function HasFieldTypeAt(t: TypeInfo, g: TypeInfo): nat -> bool { (i: nat) => HasFieldType(t, g, i) }

  function WantsDiscriminantAt(t: TypeInfo, g: TypeInfo): nat -> bool { (i: nat) => WantsDiscriminant(t, g, i) }

  function HasDiscriminantAt(t: TypeInfo, g: TypeInfo): nat -> bool { (i: nat) => HasDiscriminant(t, g, i) }

  function WantsPayloadAt(t: TypeInfo, g: TypeInfo): nat -> bool { (i: nat) => WantsPayload(t, g, i) }

  function HasPayloadAt(t: TypeInfo, g: TypeInfo): nat -> bool { (i: nat) => HasPayload(t, g, i) }

  /** Two half points for a type, two for a member, two for the type of a field that is there, and one
      each for the discriminant and the payload of a variant that is there. */
  function TypeEarned(t: TypeInfo, found: Option<TypeInfo>): nat {
    if found.None? then 0
    else
      var n, g := |t.members|, found.value;
      2 + 2 * Count(n, HasMemberAt(t, g))
      + if t.kind == Enum then Count(n, HasDiscriminantAt(t, g)) + Count(n, HasPayloadAt(t, g))
        else 2 * Count(n, HasFieldTypeAt(t, g))
  }

  function TypeTotal(t: TypeInfo, found: Option<TypeInfo>): nat {
    if found.None? then 2
    else
      var n, g := |t.members|, found.value;
      2 + 2 * n
      + if t.kind == Enum then Count(n, WantsDiscriminantAt(t, g)) + Count(n, WantsPayloadAt(t, g))
        else 2 * Count(n, HasMemberAt(t, g))
  }

  /** Points for the members of an enum that is there. */
  lemma {:induction false} VariantsCounted(t: TypeInfo, g: TypeInfo, n: nat)
    requires t.kind == Enum && n <= |t.members|
    ensures InterfaceScore.Sum(t.members[..n], MemberTally(t.kind, g.members)) ==
            Tally(2 * Count(n, HasMemberAt(t, g)) + Count(n, HasDiscriminantAt(t, g)) + Count(n, HasPayloadAt(t, g)),
                  2 * n + Count(n, WantsDiscriminantAt(t, g)) + Count(n, WantsPayloadAt(t, g)))
  {
    if n > 0 {
      VariantsCounted(t, g, n - 1);
      SumEnds(t.members[..n - 1], t.members[n - 1], MemberTally(t.kind, g.members));
      assert t.members[..n] == t.members[..n - 1] + [t.members[n - 1]];
    }
  }

  lemma OneField(t: TypeInfo, g: TypeInfo, i: nat)
    requires t.kind != Enum && i < |t.members|
    ensures MemberTally(t.kind, g.members)(t.members[i]) ==
            Tally(2 * One(HasMember(t, g, i)) + 2 * One(HasFieldType(t, g, i)), 2 + 2 * One(HasMember(t, g, i)))
  {
  }

  lemma {:induction false} FieldsCounted(t: TypeInfo, g: TypeInfo, n: nat)
    requires t.kind != Enum && n <= |t.members|
    ensures InterfaceScore.Sum(t.members[..n], MemberTally(t.kind, g.members)) ==
            Tally(2 * Count(n, HasMemberAt(t, g)) + 2 * Count(n, HasFieldTypeAt(t, g)),
                  2 * n + 2 * Count(n, HasMemberAt(t, g)))
  {
    if n > 0 {
      FieldsCounted(t, g, n - 1);
      OneField(t, g, n - 1);
      SumEnds(t.members[..n - 1], t.members[n - 1], MemberTally(t.kind, g.members));
      assert t.members[..n] == t.members[..n - 1] + [t.members[n - 1]];
    }
  }

  lemma TypeCounted(t: (string, TypeInfo), decomp: Table<TypeInfo>)
    ensures TypeTally(decomp)(t) == Tally(TypeEarned(t.1, Get(decomp, t.0)), TypeTotal(t.1, Get(decomp, t.0)))
  {
    var found := Get(decomp, t.0);
    if found.Some? {
      var n := |t.1.members|;
      assert t.1.members[..n] == t.1.members;
      if t.1.kind == Enum { VariantsCounted(t.1, found.value, n); } else { FieldsCounted(t.1, found.value, n); }
    }
  }

  function TypesEarned(orig: Table<TypeInfo>, decomp: Table<TypeInfo>): nat -> nat {
    (i: nat) => if i < |orig| then TypeEarned(orig[i].1, Get(decomp, orig[i].0)) else 0
  }

  function TypesTotal(orig: Table<TypeInfo>, decomp: Table<TypeInfo>): nat -> nat {
    (i: nat) => if i < |orig| then TypeTotal(orig[i].1, Get(decomp, orig[i].0)) else 0
  }

  /** The types score is the share of these points. */
  lemma TypesCounted(orig: Table<TypeInfo>, decomp: Table<TypeInfo>)
    ensures TypesScore(orig, decomp) == Score(Tally(Sum(|orig|, TypesEarned(orig, decomp)), Sum(|orig|, TypesTotal(orig, decomp))))
  {
    var earned, total := TypesEarned(orig, decomp), TypesTotal(orig, decomp);
    forall i: nat | i < |orig| ensures TypeTally(decomp)(orig[i]) == Tally(earned(i), total(i)) {
      TypeCounted(orig[i], decomp);
    }
    SumIs(orig, TypeTally(decomp), earned, total);
  }

  // ---------------------------------------------------------------------
  // Signatures
  // ---------------------------------------------------------------------

  predicate HasParam(f: FunctionInfo, g: FunctionInfo, i: nat) { i < |f.params| && i < |g.params| }

  predicate HasParamType(f: FunctionInfo, g: FunctionInfo, i: nat, assoc: string -> bool) {
    HasParam(f, g, i) && (g.params[i].typeStr == f.params[i].typeStr || assoc(f.params[i].typeStr))
  }

  predicate HasParamName(f: FunctionInfo, g: FunctionInfo, i: nat) {
    HasParam(f, g, i) && SameButForUnderscores(f.params[i].name, g.params[i].name)
  }

  /** Without the underscores in front the two are the same. */
  predicate SameButForUnderscores(a: string, b: string) {
    exists k, l :: 0 <= k <= |a| && 0 <= l <= |b| && IsBare(a, k) && IsBare(b, l) && a[k..] == b[l..]
  }

  /** What is left after `k` underscores starts with none. */
  predicate IsBare(s: string, k: nat) {
    k <= |s| && (forall i :: 0 <= i < k ==> s[i] == '_') && (k < |s| ==> s[k] != '_')
  }

  lemma {:induction false} TrimmedIs(s: string) returns (k: nat)
    ensures IsBare(s, k) && TrimUnderscores(s) == s[k..]
  {
    k := 0;
    if s != "" && s[0] == '_' {
      k := TrimmedIs(s[1..]);
      assert s[1..][k..] == s[k + 1..];
      k := k + 1;
    }
  }

  lemma NamesExactly(a: string, b: string)
    ensures TrimUnderscores(a) == TrimUnderscores(b) <==> SameButForUnderscores(a, b)
  {
    var k := TrimmedIs(a);
    var l := TrimmedIs(b);
    forall m | 0 <= m <= |a| && IsBare(a, m) ensures m == k {}
    forall m | 0 <= m <= |b| && IsBare(b, m) ensures m == l {}
  }

  // The tests as functions of the place.

  function HasParamAt(f: FunctionInfo, g: FunctionInfo): nat -> bool { (i: nat) => HasParam(f, g, i) }

  function HasParamTypeAt(f: FunctionInfo, g: FunctionInfo, assoc: string -> bool): nat -> bool {
    (i: nat) => HasParamType(f, g, i, assoc)
  }

  function HasParamNameAt(f: FunctionInfo, g: FunctionInfo): nat -> bool { (i: nat) => HasParamName(f, g, i) }

  /** Two half points for a function, two for the number of its parameters, two for the type of each
      parameter and one for its name, and two for the return type. */
  function SignatureEarned(f: FunctionInfo, found: Option<FunctionInfo>, assoc: string -> bool): nat {
    if found.None? then 0
    else
      var n, g := |f.params|, found.value;
      2 + (if |g.params| == n then 2 else 0)
      + 2 * Count(n, HasParamTypeAt(f, g, assoc)) + Count(n, HasParamNameAt(f, g))
      + if g.returnType == f.returnType || (f.returnType.Some? && assoc(f.returnType.value)) then 2 else 0
  }

  function SignatureTotal(f: FunctionInfo, found: Option<FunctionInfo>): nat {
    if found.None? then 2 else 6 + 2 * |f.params| + Count(|f.params|, HasParamAt(f, found.value))
  }

  lemma {:induction false} ParamsCounted(f: FunctionInfo, g: FunctionInfo, n: nat, assoc: string -> bool)
    requires n <= |f.params|
    ensures InterfaceScore.Sum(Paired(f.params, g.params)[..n], ParamTally(assoc)) ==
            Tally(2 * Count(n, HasParamTypeAt(f, g, assoc)) + Count(n, HasParamNameAt(f, g)),
                  2 * n + Count(n, HasParamAt(f, g)))
  {
    if n > 0 {
      var pairs := Paired(f.params, g.params);
      ParamsCounted(f, g, n - 1, assoc);
      SumEnds(pairs[..n - 1], pairs[n - 1], ParamTally(assoc));
      assert pairs[..n] == pairs[..n - 1] + [pairs[n - 1]];
      if n - 1 < |g.params| { NamesExactly(f.params[n - 1].name, g.params[n - 1].name); }
    }
  }

  lemma SignatureCounted(f: (string, FunctionInfo), decomp: Table<FunctionInfo>, assoc: string -> bool)
    ensures SignatureTally(decomp, assoc)(f) ==
            Tally(SignatureEarned(f.1, Get(decomp, f.0), assoc), SignatureTotal(f.1, Get(decomp, f.0)))
  {
    var found := Get(decomp, f.0);
    if found.Some? {
      var pairs := Paired(f.1.params, found.value.params);
      assert pairs[..|f.1.params|] == pairs;
      ParamsCounted(f.1, found.value, |f.1.params|, assoc);
    }
  }

  function SignaturesEarned(orig: Table<FunctionInfo>, decomp: Table<FunctionInfo>, assoc: string -> bool): nat -> nat {
    (i: nat) => if i < |orig| then SignatureEarned(orig[i].1, Get(decomp, orig[i].0), assoc) else 0
  }

  function SignaturesTotal(orig: Table<FunctionInfo>, decomp: Table<FunctionInfo>): nat -> nat {
    (i: nat) => if i < |orig| then SignatureTotal(orig[i].1, Get(decomp, orig[i].0)) else 0
  }

  lemma SignaturesCounted(orig: Table<FunctionInfo>, decomp: Table<FunctionInfo>, assoc: string -> bool)
    ensures SignaturesScore(orig, decomp, assoc) ==
            Score(Tally(Sum(|orig|, SignaturesEarned(orig, decomp, assoc)), Sum(|orig|, SignaturesTotal(orig, decomp))))
  {
    var earned, total := SignaturesEarned(orig, decomp, assoc), SignaturesTotal(orig, decomp);
    forall i: nat | i < |orig| ensures SignatureTally(decomp, assoc)(orig[i]) == Tally(earned(i), total(i)) {
      SignatureCounted(orig[i], decomp, assoc);
    }
    SumIs(orig, SignatureTally(decomp, assoc), earned, total);
  }

  // ---------------------------------------------------------------------
  // Bodies, annotations and structure
  // ---------------------------------------------------------------------

  /** One point for each operation that is there, and for a body without operations one that is there
      if it has text; none for a mere `todo!()`. */
  function BodyEarned(f: FunctionInfo, found: Option<FunctionInfo>): nat {
    if found.None? then 0
    else if f.operations == {} then if found.value.bodySource != "" then 1 else 0
    else |set op | op in f.operations && op in found.value.operations|
  }

  function BodyTotal(f: FunctionInfo): nat { if f.operations == {} then 1 else |f.operations| }

  lemma BodyCounted(f: FunctionInfo, found: Option<FunctionInfo>, todo: string -> bool)
    ensures OneBodyTally(f, found, todo) == Tally(2 * BodyEarned(f, found), 2 * BodyTotal(f))
  {
    if found.Some? {
      assert f.operations * found.value.operations == set op | op in f.operations && op in found.value.operations;
    }
  }

  function BodiesEarned(orig: Table<FunctionInfo>, decomp: Table<FunctionInfo>): nat -> nat {
    (i: nat) => if i < |orig| then 2 * BodyEarned(orig[i].1, Get(decomp, orig[i].0)) else 0
  }

  function BodiesTotal(orig: Table<FunctionInfo>): nat -> nat { (i: nat) => if i < |orig| then 2 * BodyTotal(orig[i].1) else 0 }

  lemma BodiesCounted(orig: Table<FunctionInfo>, decomp: Table<FunctionInfo>, todo: string -> bool)
    ensures BodiesScore(orig, decomp, todo) ==
            Score(Tally(Sum(|orig|, BodiesEarned(orig, decomp)), Sum(|orig|, BodiesTotal(orig))))
  {
    var earned, total := BodiesEarned(orig, decomp), BodiesTotal(orig);
    forall i: nat | i < |orig| ensures BodyTally(decomp, todo)(orig[i]) == Tally(earned(i), total(i)) {
      BodyCounted(orig[i].1, Get(decomp, orig[i].0), todo);
    }
    SumIs(orig, BodyTally(decomp, todo), earned, total);
  }

  function One(b: bool): nat { if b then 1 else 0 }

  /** A point for an element that the original has, earned if the other has it too. */
  function Earned(check: Check): nat { One(check.orig && check.decomp) }

  function Possible(check: Check): nat { One(check.orig) }

  /** The four structural elements count alike. */
  lemma StructureCounted(orig: StructureInfo, decomp: StructureInfo)
    ensures var a, b := Check(orig.noStd, decomp.noStd), Check(orig.useSdk, decomp.useSdk);
            var c, d := Check(orig.contractStruct, decomp.contractStruct), Check(orig.contractImpl, decomp.contractImpl);
            StructureTally(orig, decomp) ==
            Tally(Earned(a) + Earned(b) + Earned(c) + Earned(d), Possible(a) + Possible(b) + Possible(c) + Possible(d))
  {
    FourChecks(Checks(orig, decomp));
  }

  lemma FourChecks(checks: seq<Check>)
    requires |checks| == 4
    ensures InterfaceScore.Sum(checks, CheckTally) ==
            Tally(Earned(checks[0]) + Earned(checks[1]) + Earned(checks[2]) + Earned(checks[3]),
                  Possible(checks[0]) + Possible(checks[1]) + Possible(checks[2]) + Possible(checks[3]))
  {
    SumIs(checks, CheckTally, EarnedBy(checks), PossibleBy(checks));
    SumOfFour(EarnedBy(checks));
    SumOfFour(PossibleBy(checks));
  }

  function EarnedBy(checks: seq<Check>): nat -> nat { (i: nat) => if i < |checks| then Earned(checks[i]) else 0 }

  function PossibleBy(checks: seq<Check>): nat -> nat { (i: nat) => if i < |checks| then Possible(checks[i]) else 0 }

  lemma SumOfFour(f: nat -> nat)
    ensures Sum(4, f) == f(0) + f(1) + f(2) + f(3)
  {
    assert Sum(1, f) == f(0) && Sum(2, f) == f(0) + f(1);
  }

  /** The share of the annotations that are there. */
  lemma AnnotationsCounted(orig: set<string>, decomp: set<string>)
    ensures Score(AnnotationsTally(orig, decomp)) == Percent(|set a | a in orig && a in decomp|, |orig|)
  {
    assert orig * decomp == set a | a in orig && a in decomp;
  }

  // ---------------------------------------------------------------------
  // The whole comparison
  // ---------------------------------------------------------------------

  /** Of twenty parts of the overall score five are for types, four for signatures, three for
      annotations, six for bodies and two for structure. */
  lemma OverallWeighs(orig: ContractInterface, decomp: ContractInterface, assoc: string -> bool, todo: string -> bool)
    ensures var r := Compare(orig, decomp, assoc, todo);
            && r.types == TypesScore(orig.types, decomp.types)
            && r.signatures == SignaturesScore(orig.functions, decomp.functions, assoc)
            && r.bodies == BodiesScore(orig.functions, decomp.functions, todo)
            && 20.0 * r.overall == 5.0 * r.types + 4.0 * r.signatures + 3.0 * r.annotations + 6.0 * r.bodies + 2.0 * r.structure
  {
  }

  /** The texts by which types are told to name an associated type, and bodies to be unfinished. */
  lemma {:induction false} ContainsExactly(s: string, w: string)
    ensures Contains(s, w) <==> exists k :: 0 <= k <= |s| && w <= s[k..]
  {
    if s != "" {
      ContainsExactly(s[1..], w);
      assert s[0..] == s;
      assert forall k :: 0 < k <= |s| ==> s[k..] == s[1..][k - 1..];
      if k :| 0 <= k <= |s| - 1 && w <= s[1..][k..] { assert w <= s[k + 1..]; }
    } else {
      assert s[0..] == s;
    }
  }
}
