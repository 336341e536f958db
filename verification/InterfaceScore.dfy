/** The comparison of two contract interfaces: five component scores and their weighted sum.

    Points are counted in halves, and scores are exact fractions of one hundred. */
module InterfaceScore {
  import opened Ir

  // ---------------------------------------------------------------------
  // Interfaces
  // ---------------------------------------------------------------------

  datatype TypeKind = Struct | TupleStruct | Enum

  datatype MemberInfo = MemberInfo(typeStr: Option<string>, discriminant: Option<int>)

  /** A map by name, in the order of its names. */
  type Table<V> = seq<(string, V)>

  datatype TypeInfo = TypeInfo(kind: TypeKind, members: Table<MemberInfo>)

  datatype ParamInfo = ParamInfo(name: string, typeStr: string)

  datatype FunctionInfo = FunctionInfo(
    params: seq<ParamInfo>,
    returnType: Option<string>,
    bodySource: string,
    operations: set<string>
  )

  datatype StructureInfo = StructureInfo(noStd: bool, useSdk: bool, contractStruct: bool, contractImpl: bool)

  datatype ContractInterface = ContractInterface(
    types: Table<TypeInfo>,
    functions: Table<FunctionInfo>,
    annotations: set<string>,
    structure: StructureInfo
  )

  /** Names do not repeat. */
  predicate IsTable<V>(table: Table<V>) {
    forall i, j :: 0 <= i < j < |table| ==> table[i].0 != table[j].0
  }

  function Get<V>(table: Table<V>, name: string): Option<V> {
    if table == [] then None
    else if table[0].0 == name then Some(table[0].1)
    else Get(table[1..], name)
  }

  lemma {:induction false} GetOwn<V>(table: Table<V>, i: nat)
    requires IsTable(table) && i < |table|
    ensures Get(table, table[i].0) == Some(table[i].1)
    decreases i
  {
    if i > 0 { GetOwn(table[1..], i - 1); }
  }

  predicate WellFormed(iface: ContractInterface) {
    && IsTable(iface.types) && IsTable(iface.functions)
    && forall i :: 0 <= i < |iface.types| ==> IsTable(iface.types[i].1.members)
  }

  // ---------------------------------------------------------------------
  // Tallies
  // ---------------------------------------------------------------------

  /** Half points earned, out of a total. */
  datatype Tally = Tally(earned: nat, total: nat)

  function Add(a: Tally, b: Tally): Tally { Tally(a.earned + b.earned, a.total + b.total) }

  predicate Fair(t: Tally) { t.earned <= t.total }

  predicate Full(t: Tally) { t.earned == t.total }

  /** `points` half points, earned or not. */
  function Points(points: nat, earned: bool): (t: Tally)
    ensures Fair(t) && (Full(t) <==> earned || points == 0)
  {
    Tally(if earned then points else 0, points)
  }

  function Sum<A>(items: seq<A>, tally: A -> Tally): Tally {
    if items == [] then Tally(0, 0) else Add(tally(items[0]), Sum(items[1..], tally))
  }

  /** A sum is fair, and full exactly when each part is. */
  lemma {:induction false} SumIsFull<A>(items: seq<A>, tally: A -> Tally)
    requires forall i :: 0 <= i < |items| ==> Fair(tally(items[i]))
    ensures Fair(Sum(items, tally))
    ensures Full(Sum(items, tally)) <==> forall i :: 0 <= i < |items| ==> Full(tally(items[i]))
    decreases |items|
  {
    if items != [] {
      SumIsFull(items[1..], tally);
      assert forall i :: 0 < i < |items| ==> items[i] == items[1..][i - 1];
    }
  }

  function Total(parts: seq<Tally>): Tally {
    if parts == [] then Tally(0, 0) else Add(Total(parts[..|parts| - 1]), parts[|parts| - 1])
  }

  /** The parts are the tallies of the first items, one each. */
  ghost predicate AreParts<A>(items: seq<A>, tally: A -> Tally, parts: seq<Tally>) {
    |parts| <= |items| && forall k :: 0 <= k < |parts| ==> parts[k] == tally(items[k])
  }

  lemma OneMorePart<A>(items: seq<A>, tally: A -> Tally, parts: seq<Tally>, part: Tally)
    requires AreParts(items, tally, parts) && |parts| < |items| && part == tally(items[|parts|])
    ensures AreParts(items, tally, parts + [part]) && Total(parts + [part]) == Add(Total(parts), part)
  {
    TotalEnds(parts, part);
    PartsGrow(items, tally, parts, part);
  }

  lemma PartsGrow<A>(items: seq<A>, tally: A -> Tally, parts: seq<Tally>, part: Tally)
    requires AreParts(items, tally, parts) && |parts| < |items| && part == tally(items[|parts|])
    ensures AreParts(items, tally, parts + [part])
  {
  }

  lemma TotalEnds(parts: seq<Tally>, part: Tally)
    ensures Total(parts + [part]) == Add(Total(parts), part)
  {
    var longer := parts + [part];
    assert longer[..|longer| - 1] == parts;
    assert longer[|longer| - 1] == part;
  }

  lemma {:induction false} PrefixTotal<A>(items: seq<A>, tally: A -> Tally, parts: seq<Tally>)
    requires AreParts(items, tally, parts)
    ensures Total(parts) == Sum(items[..|parts|], tally)
    decreases |parts|
  {
    if parts != [] {
      var n := |parts| - 1;
      PrefixTotal(items, tally, parts[..n]);
      SumEnds(items[..n], items[n], tally);
      assert items[..n + 1] == items[..n] + [items[n]];
    }
  }

  lemma {:induction false} SumEnds<A>(items: seq<A>, last: A, tally: A -> Tally)
    ensures Sum(items + [last], tally) == Add(Sum(items, tally), tally(last))
    decreases |items|
  {
    if items == [] {
      assert (items + [last])[1..] == [];
    } else {
      SumEnds(items[1..], last, tally);
      assert (items + [last])[1..] == items[1..] + [last];
    }
  }

  /** All parts together make the sum. */
  lemma AllParts<A>(items: seq<A>, tally: A -> Tally, parts: seq<Tally>)
    requires AreParts(items, tally, parts) && |parts| == |items|
    ensures Total(parts) == Sum(items, tally)
  {
    PrefixTotal(items, tally, parts);
    assert items[..|parts|] == items;
  }

  function Score(t: Tally): real {
    if t.total == 0 then 100.0 else (t.earned as real / t.total as real) * 100.0
  }

  lemma ScoreBounds(t: Tally)
    requires Fair(t)
    ensures 0.0 <= Score(t) <= 100.0
    ensures Score(t) == 100.0 <==> Full(t)
  {
    if t.total > 0 {
      var e, n := t.earned as real, t.total as real;
      Fraction(e, n);
    }
  }

  lemma Fraction(e: real, n: real)
    requires 0.0 <= e <= n && n > 0.0
    ensures 0.0 <= e / n <= 1.0
    ensures e / n == 1.0 <==> e == n
  {
    var q := e / n;
    assert q * n == e;
  }

  // ---------------------------------------------------------------------
  // Types
  // ---------------------------------------------------------------------

  function PresentVariantTally(orig: MemberInfo, found: MemberInfo): Tally {
    var present := Points(2, true);
    var withDiscriminant :=
      if orig.discriminant.Some? then Add(present, Points(1, found.discriminant == orig.discriminant)) else present;
    if orig.typeStr.Some? then Add(withDiscriminant, Points(1, orig.typeStr == found.typeStr)) else withDiscriminant
  }

  function VariantTally(variant: (string, MemberInfo), decomp: Table<MemberInfo>): Tally {
    var found := Get(decomp, variant.0);
    if found.None? then Points(2, false) else PresentVariantTally(variant.1, found.value)
  }

  function FieldTally(field: (string, MemberInfo), decomp: Table<MemberInfo>): Tally {
    var found := Get(decomp, field.0);
    if found.None? then Points(2, false)
    else Add(Points(2, true), Points(2, field.1.typeStr == found.value.typeStr))
  }

  function MemberTally(kind: TypeKind, decomp: Table<MemberInfo>): ((string, MemberInfo)) -> Tally {
    (m: (string, MemberInfo)) => if kind.Enum? then VariantTally(m, decomp) else FieldTally(m, decomp)
  }

  function TypeTally(decomp: Table<TypeInfo>): ((string, TypeInfo)) -> Tally {
    (t: (string, TypeInfo)) =>
      var found := Get(decomp, t.0);
      if found.None? then Points(2, false)
      else Add(Points(2, true), Sum(t.1.members, MemberTally(t.1.kind, found.value.members)))
  }

  function TypesScore(orig: Table<TypeInfo>, decomp: Table<TypeInfo>): real { Score(Sum(orig, TypeTally(decomp))) }

  method ScoreTypes(orig: Table<TypeInfo>, decomp: Table<TypeInfo>) returns (score: real)
    ensures score == TypesScore(orig, decomp)
  {
    if orig == [] { return 100.0; }
    var tally := Tally(0, 0);
    ghost var g, parts := TypeTally(decomp), [];
    for i := 0 to |orig|
      invariant |parts| == i && AreParts(orig, g, parts) && tally == Total(parts)
    {
      var part := ScoreType(orig[i], decomp);
      OneMorePart(orig, g, parts, part);
      parts := parts + [part];
      tally := Add(tally, part);
    }
    AllParts(orig, g, parts);
    score := Score(tally);
  }

  method ScoreType(t: (string, TypeInfo), decomp: Table<TypeInfo>) returns (tally: Tally)
    ensures tally == TypeTally(decomp)(t)
  {
    var found := Get(decomp, t.0);
    if found.None? { return Tally(0, 2); }
    tally := Tally(2, 2);
    ghost var g, parts := MemberTally(t.1.kind, found.value.members), [];
    for i := 0 to |t.1.members|
      invariant |parts| == i && AreParts(t.1.members, g, parts) && tally == Add(Tally(2, 2), Total(parts))
    {
      var part := ScoreMember(t.1.kind, t.1.members[i], found.value.members);
      OneMorePart(t.1.members, g, parts, part);
      parts := parts + [part];
      tally := Add(tally, part);
    }
    AllParts(t.1.members, g, parts);
  }

  method ScoreMember(kind: TypeKind, member: (string, MemberInfo), decomp: Table<MemberInfo>) returns (tally: Tally)
    ensures tally == MemberTally(kind, decomp)(member)
  {
    var found := Get(decomp, member.0);
    if found.None? { return Tally(0, 2); }
    if kind.Enum? {
      tally := ScoreVariant(member.1, found.value);
    } else {
      tally := Tally(if member.1.typeStr == found.value.typeStr then 4 else 2, 4);
    }
  }

  method ScoreVariant(info: MemberInfo, found: MemberInfo) returns (tally: Tally)
    ensures tally == PresentVariantTally(info, found)
  {
    tally := Tally(2, 2);
    if info.discriminant.Some? {
      tally := Add(tally, Points(1, found.discriminant == info.discriminant));
    }
    if info.typeStr.Some? {
      tally := Add(tally, Points(1, info.typeStr == found.typeStr));
    }
  }

  /** The scored attributes of an original member are those of the decompiled one. */
  predicate MemberMatches(kind: TypeKind, orig: MemberInfo, found: Option<MemberInfo>) {
    && found.Some?
    && if kind.Enum? then
         && (orig.discriminant.Some? ==> found.value.discriminant == orig.discriminant)
         && (orig.typeStr.Some? ==> orig.typeStr == found.value.typeStr)
       else orig.typeStr == found.value.typeStr
  }

  predicate TypeMatches(orig: TypeInfo, found: Option<TypeInfo>) {
    && found.Some?
    && forall i :: 0 <= i < |orig.members| ==>
         MemberMatches(orig.kind, orig.members[i].1, Get(found.value.members, orig.members[i].0))
  }

  lemma MemberIsFull(kind: TypeKind, m: (string, MemberInfo), decomp: Table<MemberInfo>)
    ensures Fair(MemberTally(kind, decomp)(m))
    ensures Full(MemberTally(kind, decomp)(m)) <==> MemberMatches(kind, m.1, Get(decomp, m.0))
  {
  }

  lemma TypeIsFull(t: (string, TypeInfo), decomp: Table<TypeInfo>)
    ensures Fair(TypeTally(decomp)(t))
    ensures Full(TypeTally(decomp)(t)) <==> TypeMatches(t.1, Get(decomp, t.0))
  {
    var found := Get(decomp, t.0);
    if found.Some? {
      var members := found.value.members;
      forall i | 0 <= i < |t.1.members|
        ensures Fair(MemberTally(t.1.kind, members)(t.1.members[i]))
        ensures Full(MemberTally(t.1.kind, members)(t.1.members[i]))
                <==> MemberMatches(t.1.kind, t.1.members[i].1, Get(members, t.1.members[i].0))
      {
        MemberIsFull(t.1.kind, t.1.members[i], members);
      }
      SumIsFull(t.1.members, MemberTally(t.1.kind, members));
    }
  }

  /** The types score is full exactly when every original type and member is there with its
      scored attributes. The kind of a type is not among them. */
  lemma TypesFullExactlyWhen(orig: Table<TypeInfo>, decomp: Table<TypeInfo>)
    ensures 0.0 <= TypesScore(orig, decomp) <= 100.0
    ensures TypesScore(orig, decomp) == 100.0
            <==> forall i :: 0 <= i < |orig| ==> TypeMatches(orig[i].1, Get(decomp, orig[i].0))
  {
    forall i | 0 <= i < |orig|
      ensures Fair(TypeTally(decomp)(orig[i]))
      ensures Full(TypeTally(decomp)(orig[i])) <==> TypeMatches(orig[i].1, Get(decomp, orig[i].0))
    {
      TypeIsFull(orig[i], decomp);
    }
    SumIsFull(orig, TypeTally(decomp));
    ScoreBounds(Sum(orig, TypeTally(decomp)));
  }

  // ---------------------------------------------------------------------
  // Signatures
  // ---------------------------------------------------------------------

  function Contains(s: string, w: string): bool
    decreases |s|
  {
    w <= s || (s != "" && Contains(s[1..], w))
  }

  predicate IsAssociatedType(s: string) { "Self::" <= s || "Self ::" <= s || Contains(s, "< Self") }

  function TrimUnderscores(s: string): string { if s != "" && s[0] == '_' then TrimUnderscores(s[1..]) else s }

  predicate TypesAgree(orig: ParamInfo, decomp: ParamInfo, assoc: string -> bool) {
    orig.typeStr == decomp.typeStr || assoc(orig.typeStr)
  }

  predicate NamesAgree(orig: ParamInfo, decomp: ParamInfo) {
    TrimUnderscores(orig.name) == TrimUnderscores(decomp.name)
  }

  predicate ReturnsAgree(orig: Option<string>, decomp: Option<string>, assoc: string -> bool) {
    orig == decomp || (orig.Some? && assoc(orig.value))
  }

  /** Each original parameter with the decompiled one at its place. */
  function Paired(orig: seq<ParamInfo>, decomp: seq<ParamInfo>): (pairs: seq<(ParamInfo, Option<ParamInfo>)>)
    ensures |pairs| == |orig|
  {
    seq(|orig|, i requires 0 <= i < |orig| => (orig[i], if i < |decomp| then Some(decomp[i]) else None))
  }

  function ParamTally(assoc: string -> bool): ((ParamInfo, Option<ParamInfo>)) -> Tally {
    (pair: (ParamInfo, Option<ParamInfo>)) =>
      if pair.1.None? then Points(2, false)
      else Add(Points(2, TypesAgree(pair.0, pair.1.value, assoc)), Points(1, NamesAgree(pair.0, pair.1.value)))
  }

  function SignatureTally(decomp: Table<FunctionInfo>, assoc: string -> bool): ((string, FunctionInfo)) -> Tally {
    (f: (string, FunctionInfo)) =>
      var found := Get(decomp, f.0);
      if found.None? then Points(2, false)
      else
        Add(Add(Add(Points(2, true), Points(2, |f.1.params| == |found.value.params|)),
                Sum(Paired(f.1.params, found.value.params), ParamTally(assoc))),
            Points(2, ReturnsAgree(f.1.returnType, found.value.returnType, assoc)))
  }

  function SignaturesScore(orig: Table<FunctionInfo>, decomp: Table<FunctionInfo>, assoc: string -> bool): real {
    Score(Sum(orig, SignatureTally(decomp, assoc)))
  }

  method ScoreSignatures(orig: Table<FunctionInfo>, decomp: Table<FunctionInfo>, assoc: string -> bool)
    returns (score: real)
    ensures score == SignaturesScore(orig, decomp, assoc)
  {
    if orig == [] { return 100.0; }
    var tally := Tally(0, 0);
    ghost var g, parts := SignatureTally(decomp, assoc), [];
    for i := 0 to |orig|
      invariant |parts| == i && AreParts(orig, g, parts) && tally == Total(parts)
    {
      var part := ScoreSignature(orig[i], decomp, assoc);
      OneMorePart(orig, g, parts, part);
      parts := parts + [part];
      tally := Add(tally, part);
    }
    AllParts(orig, g, parts);
    score := Score(tally);
  }

  method ScoreSignature(f: (string, FunctionInfo), decomp: Table<FunctionInfo>, assoc: string -> bool)
    returns (tally: Tally)
    ensures tally == SignatureTally(decomp, assoc)(f)
  {
    var orig := f.1;
    var found := Get(decomp, f.0);
    if found.None? { return Tally(0, 2); }
    tally := Tally(2, 2);
    tally := Add(tally, Points(2, |orig.params| == |found.value.params|));
    var params := ScoreParams(orig.params, found.value.params, assoc);
    tally := Add(tally, params);
    tally := Add(tally, Points(2, ReturnsAgree(orig.returnType, found.value.returnType, assoc)));
  }

  method ScoreParams(orig: seq<ParamInfo>, decomp: seq<ParamInfo>, assoc: string -> bool) returns (tally: Tally)
    ensures tally == Sum(Paired(orig, decomp), ParamTally(assoc))
  {
    tally := Tally(0, 0);
    ghost var pairs, g, parts := Paired(orig, decomp), ParamTally(assoc), [];
    for i := 0 to |orig|
      invariant |parts| == i && AreParts(pairs, g, parts) && tally == Total(parts)
    {
      var part := ScoreParam(orig[i], if i < |decomp| then Some(decomp[i]) else None, assoc);
      OneMorePart(pairs, g, parts, part);
      parts := parts + [part];
      tally := Add(tally, part);
    }
    AllParts(pairs, g, parts);
  }

  method ScoreParam(orig: ParamInfo, decomp: Option<ParamInfo>, assoc: string -> bool) returns (tally: Tally)
    ensures tally == ParamTally(assoc)((orig, decomp))
  {
    if decomp.None? { return Tally(0, 2); }
    tally := Points(2, orig.typeStr == decomp.value.typeStr || assoc(orig.typeStr));
    tally := Add(tally, Points(1, TrimUnderscores(orig.name) == TrimUnderscores(decomp.value.name)));
  }

  predicate ParamMatches(orig: seq<ParamInfo>, decomp: seq<ParamInfo>, i: nat, assoc: string -> bool)
    requires i < |orig|
  {
    i < |decomp| && TypesAgree(orig[i], decomp[i], assoc) && NamesAgree(orig[i], decomp[i])
  }

  /** Parameters agree in number, order, type and name (up to leading underscores), and the return
      type agrees; an original type that names an associated type agrees with any. */
  predicate SignatureMatches(orig: FunctionInfo, found: Option<FunctionInfo>, assoc: string -> bool) {
    && found.Some?
    && |orig.params| == |found.value.params|
    && (forall i :: 0 <= i < |orig.params| ==> ParamMatches(orig.params, found.value.params, i, assoc))
    && ReturnsAgree(orig.returnType, found.value.returnType, assoc)
  }

  lemma SignatureIsFull(f: (string, FunctionInfo), decomp: Table<FunctionInfo>, assoc: string -> bool)
    ensures Fair(SignatureTally(decomp, assoc)(f))
    ensures Full(SignatureTally(decomp, assoc)(f)) <==> SignatureMatches(f.1, Get(decomp, f.0), assoc)
  {
    var found := Get(decomp, f.0);
    if found.Some? {
      ParamsFull(f.1.params, found.value.params, assoc);
    }
  }

  lemma ParamsFull(orig: seq<ParamInfo>, decomp: seq<ParamInfo>, assoc: string -> bool)
    ensures Fair(Sum(Paired(orig, decomp), ParamTally(assoc)))
    ensures Full(Sum(Paired(orig, decomp), ParamTally(assoc))) <==>
            forall i :: 0 <= i < |orig| ==> ParamMatches(orig, decomp, i, assoc)
  {
    var pairs, g := Paired(orig, decomp), ParamTally(assoc);
    forall i | 0 <= i < |orig|
      ensures Fair(g(pairs[i])) && (Full(g(pairs[i])) <==> ParamMatches(orig, decomp, i, assoc))
    {
    }
    SumIsFull(pairs, g);
    if forall i :: 0 <= i < |orig| ==> ParamMatches(orig, decomp, i, assoc) {
      assert forall i :: 0 <= i < |pairs| ==> Full(g(pairs[i]));
    } else {
      var i :| 0 <= i < |orig| && !ParamMatches(orig, decomp, i, assoc);
      assert !Full(g(pairs[i]));
    }
  }

  lemma SignaturesFullExactlyWhen(orig: Table<FunctionInfo>, decomp: Table<FunctionInfo>, assoc: string -> bool)
    ensures 0.0 <= SignaturesScore(orig, decomp, assoc) <= 100.0
    ensures SignaturesScore(orig, decomp, assoc) == 100.0
            <==> forall i :: 0 <= i < |orig| ==> SignatureMatches(orig[i].1, Get(decomp, orig[i].0), assoc)
  {
    forall i | 0 <= i < |orig|
      ensures Fair(SignatureTally(decomp, assoc)(orig[i]))
      ensures Full(SignatureTally(decomp, assoc)(orig[i])) <==> SignatureMatches(orig[i].1, Get(decomp, orig[i].0), assoc)
    {
      SignatureIsFull(orig[i], decomp, assoc);
    }
    SumIsFull(orig, SignatureTally(decomp, assoc));
    ScoreBounds(Sum(orig, SignatureTally(decomp, assoc)));
  }

  // ---------------------------------------------------------------------
  // Annotations and structure
  // ---------------------------------------------------------------------

  function AnnotationsTally(orig: set<string>, decomp: set<string>): Tally { Tally(|orig * decomp|, |orig|) }

  lemma AnnotationsFullExactlyWhen(orig: set<string>, decomp: set<string>)
    ensures 0.0 <= Score(AnnotationsTally(orig, decomp)) <= 100.0
    ensures Score(AnnotationsTally(orig, decomp)) == 100.0 <==> orig <= decomp
  {
    CommonSize(orig, decomp);
    ScoreBounds(AnnotationsTally(orig, decomp));
  }

  lemma CommonSize<A>(a: set<A>, b: set<A>)
    ensures |a * b| <= |a| && (|a * b| == |a| <==> a <= b)
  {
    var rest := a - b;
    assert a == a * b + rest && (a * b) !! rest;
    assert |a| == |a * b| + |rest|;
    assert rest == {} <==> a <= b;
  }

  datatype Check = Check(orig: bool, decomp: bool)

  /** The four structural elements, in the original and in the decompiled file. */
  function Checks(orig: StructureInfo, decomp: StructureInfo): seq<Check> {
    [Check(orig.noStd, decomp.noStd), Check(orig.useSdk, decomp.useSdk),
     Check(orig.contractStruct, decomp.contractStruct), Check(orig.contractImpl, decomp.contractImpl)]
  }

  function CheckTally(check: Check): Tally { if check.orig then Points(1, check.decomp) else Tally(0, 0) }

  function StructureTally(orig: StructureInfo, decomp: StructureInfo): Tally {
    Sum(Checks(orig, decomp), CheckTally)
  }

  method ScoreStructure(orig: StructureInfo, decomp: StructureInfo) returns (score: real)
    ensures score == Score(StructureTally(orig, decomp))
  {
    var tally := TallyChecks(Checks(orig, decomp));
    score := Score(tally);
  }

  method TallyChecks(checks: seq<Check>) returns (tally: Tally)
    ensures tally == Sum(checks, CheckTally)
  {
    tally := Tally(0, 0);
    ghost var parts := [];
    for i := 0 to |checks|
      invariant |parts| == i && AreParts(checks, CheckTally, parts) && tally == Total(parts)
    {
      var part := TallyCheck(checks[i]);
      OneMorePart(checks, CheckTally, parts, part);
      parts := parts + [part];
      tally := Add(tally, part);
    }
    AllParts(checks, CheckTally, parts);
  }

  method TallyCheck(check: Check) returns (tally: Tally)
    ensures tally == CheckTally(check)
  {
    var total, matched := 0, 0;
    if check.orig {
      total := 1;
      if check.decomp { matched := 1; }
    }
    tally := Tally(matched, total);
  }

  lemma StructureFullExactlyWhen(orig: StructureInfo, decomp: StructureInfo)
    ensures 0.0 <= Score(StructureTally(orig, decomp)) <= 100.0
    ensures Score(StructureTally(orig, decomp)) == 100.0 <==>
            forall check :: check in Checks(orig, decomp) && check.orig ==> check.decomp
  {
    var checks := Checks(orig, decomp);
    SumIsFull(checks, CheckTally);
    ScoreBounds(StructureTally(orig, decomp));
  }

  // ---------------------------------------------------------------------
  // Bodies
  // ---------------------------------------------------------------------

  function OneBodyTally(orig: FunctionInfo, found: Option<FunctionInfo>, todo: string -> bool): Tally {
    var ops := orig.operations;
    if found.None? then Tally(0, if ops == {} then 2 else 2 * |ops|)
    else if ops == {} then Points(2, found.value.bodySource != "")
    else if todo(found.value.bodySource) && found.value.operations == {} then Tally(0, 2 * |ops|)
    else Tally(2 * |ops * found.value.operations|, 2 * |ops|)
  }

  function BodyTally(decomp: Table<FunctionInfo>, todo: string -> bool): ((string, FunctionInfo)) -> Tally {
    (f: (string, FunctionInfo)) => OneBodyTally(f.1, Get(decomp, f.0), todo)
  }

  function BodiesScore(orig: Table<FunctionInfo>, decomp: Table<FunctionInfo>, todo: string -> bool): real {
    Score(Sum(orig, BodyTally(decomp, todo)))
  }

  method ScoreBodies(orig: Table<FunctionInfo>, decomp: Table<FunctionInfo>, todo: string -> bool)
    returns (score: real)
    ensures score == BodiesScore(orig, decomp, todo)
  {
    if orig == [] { return 100.0; }
    var tally := Tally(0, 0);
    ghost var g, parts := BodyTally(decomp, todo), [];
    for i := 0 to |orig|
      invariant |parts| == i && AreParts(orig, g, parts) && tally == Total(parts)
    {
      var part := ScoreBody(orig[i], decomp, todo);
      OneMorePart(orig, g, parts, part);
      parts := parts + [part];
      tally := Add(tally, part);
    }
    AllParts(orig, g, parts);
    score := Score(tally);
  }

  method ScoreBody(f: (string, FunctionInfo), decomp: Table<FunctionInfo>, todo: string -> bool)
    returns (tally: Tally)
    ensures tally == BodyTally(decomp, todo)(f)
  {
    var ops := f.1.operations;
    var found := Get(decomp, f.0);
    if found.None? {
      return Tally(0, 2 * if |ops| < 1 then 1 else |ops|);
    }
    var isPureTodo := todo(found.value.bodySource) && found.value.operations == {};
    if isPureTodo && ops != {} {
      return Tally(0, 2 * |ops|);
    }
    var total, earned := CountFound(ops, found.value.operations);
    if total == 0 {
      total := 1;
      if found.value.bodySource != "" { earned := 1; }
    }
    tally := Tally(2 * earned, 2 * total);
  }

  /** The loop over the operations of an original body. */
  method CountFound(ops: set<string>, present: set<string>) returns (total: nat, found: nat)
    ensures total == |ops| && found == |ops * present|
  {
    total, found := 0, 0;
    var rest := ops;
    while rest != {}
      invariant rest <= ops
      invariant total == |ops - rest| && found == |(ops - rest) * present|
      decreases |rest|
    {
      var op :| op in rest;
      assert ops - (rest - {op}) == (ops - rest) + {op};
      assert ((ops - rest) + {op}) * present
             == if op in present then (ops - rest) * present + {op} else (ops - rest) * present;
      total := total + 1;
      if op in present { found := found + 1; }
      rest := rest - {op};
    }
    assert ops - {} == ops;
  }

  /** The function is there with all operations of the original; without any, it has some body. */
  predicate BodyMatches(orig: FunctionInfo, found: Option<FunctionInfo>) {
    && found.Some?
    && if orig.operations == {} then found.value.bodySource != "" else orig.operations <= found.value.operations
  }

  lemma BodyIsFull(orig: FunctionInfo, found: Option<FunctionInfo>, todo: string -> bool)
    ensures Fair(OneBodyTally(orig, found, todo))
    ensures Full(OneBodyTally(orig, found, todo)) <==> BodyMatches(orig, found)
  {
    var ops := orig.operations;
    assert ops != {} ==> |ops| > 0;
    if found.Some? {
      CommonSize(ops, found.value.operations);
    }
  }

  lemma BodiesFullExactlyWhen(orig: Table<FunctionInfo>, decomp: Table<FunctionInfo>, todo: string -> bool)
    ensures 0.0 <= BodiesScore(orig, decomp, todo) <= 100.0
    ensures BodiesScore(orig, decomp, todo) == 100.0
            <==> forall i :: 0 <= i < |orig| ==> BodyMatches(orig[i].1, Get(decomp, orig[i].0))
  {
    forall i | 0 <= i < |orig|
      ensures Fair(BodyTally(decomp, todo)(orig[i]))
      ensures Full(BodyTally(decomp, todo)(orig[i])) <==> BodyMatches(orig[i].1, Get(decomp, orig[i].0))
    {
      BodyIsFull(orig[i].1, Get(decomp, orig[i].0), todo);
    }
    SumIsFull(orig, BodyTally(decomp, todo));
    ScoreBounds(Sum(orig, BodyTally(decomp, todo)));
  }

  // ---------------------------------------------------------------------
  // The comparison
  // ---------------------------------------------------------------------

  function WeightedOverall(types: real, signatures: real, annotations: real, bodies: real, structure: real): real {
    0.25 * types + 0.20 * signatures + 0.15 * annotations + 0.30 * bodies + 0.10 * structure
  }

  datatype Comparison = Comparison(
    types: real, signatures: real, annotations: real, bodies: real, structure: real, overall: real)

  function Compare(orig: ContractInterface, decomp: ContractInterface, assoc: string -> bool, todo: string -> bool)
    : Comparison
  {
    var types := TypesScore(orig.types, decomp.types);
    var signatures := SignaturesScore(orig.functions, decomp.functions, assoc);
    var annotations := Score(AnnotationsTally(orig.annotations, decomp.annotations));
    var bodies := BodiesScore(orig.functions, decomp.functions, todo);
    var structure := Score(StructureTally(orig.structure, decomp.structure));
    Comparison(types, signatures, annotations, bodies, structure,
               WeightedOverall(types, signatures, annotations, bodies, structure))
  }

  method CompareInterfaces(orig: ContractInterface, decomp: ContractInterface) returns (r: Comparison)
    ensures r == Compare(orig, decomp, s => IsAssociatedType(s), s => MentionsTodo(s))
  {
    var types := ScoreTypes(orig.types, decomp.types);
    var signatures := ScoreSignatures(orig.functions, decomp.functions, s => IsAssociatedType(s));
    var annotations := Score(AnnotationsTally(orig.annotations, decomp.annotations));
    var bodies := ScoreBodies(orig.functions, decomp.functions, s => MentionsTodo(s));
    var structure := ScoreStructure(orig.structure, decomp.structure);
    r := Comparison(types, signatures, annotations, bodies, structure,
                    WeightedOverall(types, signatures, annotations, bodies, structure));
  }

  predicate MentionsTodo(s: string) { Contains(s, "todo !") || Contains(s, "todo!") }

  predicate IsScore(x: real) { 0.0 <= x <= 100.0 }

  /** The overall score is a score, and full exactly when all five components are. */
  lemma OverallFullExactlyWhen(orig: ContractInterface, decomp: ContractInterface,
                               assoc: string -> bool, todo: string -> bool)
    ensures var r := Compare(orig, decomp, assoc, todo);
            && IsScore(r.types) && IsScore(r.signatures) && IsScore(r.annotations) && IsScore(r.bodies)
            && IsScore(r.structure) && IsScore(r.overall)
            && (r.overall == 100.0 <==>
                r.types == r.signatures == r.annotations == r.bodies == r.structure == 100.0)
  {
    TypesFullExactlyWhen(orig.types, decomp.types);
    SignaturesFullExactlyWhen(orig.functions, decomp.functions, assoc);
    AnnotationsFullExactlyWhen(orig.annotations, decomp.annotations);
    BodiesFullExactlyWhen(orig.functions, decomp.functions, todo);
    StructureFullExactlyWhen(orig.structure, decomp.structure);
  }

  /** Compared with itself an interface scores full in every component, in bodies exactly when each
      function without operations has some body text. */
  lemma SelfComparison(iface: ContractInterface, assoc: string -> bool, todo: string -> bool)
    requires WellFormed(iface)
    ensures var r := Compare(iface, iface, assoc, todo);
            && r.types == r.signatures == r.annotations == r.structure == 100.0
            && (r.bodies == 100.0 <==> BodiesHaveText(iface.functions))
            && (r.overall == 100.0 <==> BodiesHaveText(iface.functions))
  {
    SelfTypes(iface.types);
    SelfSignatures(iface.functions, assoc);
    SelfRest(iface.annotations, iface.structure);
    SelfBodies(iface.functions, todo);
    OverallFullExactlyWhen(iface, iface, assoc, todo);
  }

  lemma SelfRest(annotations: set<string>, structure: StructureInfo)
    ensures Score(AnnotationsTally(annotations, annotations)) == 100.0
    ensures Score(StructureTally(structure, structure)) == 100.0
  {
    AnnotationsFullExactlyWhen(annotations, annotations);
    StructureFullExactlyWhen(structure, structure);
  }

  lemma SelfTypes(types: Table<TypeInfo>)
    requires IsTable(types) && forall i :: 0 <= i < |types| ==> IsTable(types[i].1.members)
    ensures TypesScore(types, types) == 100.0
  {
    TypesMatchThemselves(types);
    TypesFullExactlyWhen(types, types);
  }

  lemma SelfSignatures(functions: Table<FunctionInfo>, assoc: string -> bool)
    requires IsTable(functions)
    ensures SignaturesScore(functions, functions, assoc) == 100.0
  {
    SignaturesMatchThemselves(functions, assoc);
    SignaturesFullExactlyWhen(functions, functions, assoc);
  }

  lemma SelfBodies(functions: Table<FunctionInfo>, todo: string -> bool)
    requires IsTable(functions)
    ensures BodiesScore(functions, functions, todo) == 100.0 <==> BodiesHaveText(functions)
  {
    BodiesMatchThemselves(functions);
    BodiesFullExactlyWhen(functions, functions, todo);
  }

  predicate BodiesHaveText(functions: Table<FunctionInfo>) {
    forall i :: 0 <= i < |functions| && functions[i].1.operations == {} ==> functions[i].1.bodySource != ""
  }

  lemma TypesMatchThemselves(types: Table<TypeInfo>)
    requires IsTable(types) && forall i :: 0 <= i < |types| ==> IsTable(types[i].1.members)
    ensures forall i :: 0 <= i < |types| ==> TypeMatches(types[i].1, Get(types, types[i].0))
  {
    forall i | 0 <= i < |types| ensures TypeMatches(types[i].1, Get(types, types[i].0)) {
      GetOwn(types, i);
      var members := types[i].1.members;
      forall j | 0 <= j < |members| ensures MemberMatches(types[i].1.kind, members[j].1, Get(members, members[j].0)) {
        GetOwn(members, j);
      }
    }
  }

  lemma SignaturesMatchThemselves(functions: Table<FunctionInfo>, assoc: string -> bool)
    requires IsTable(functions)
    ensures forall i :: 0 <= i < |functions| ==>
              SignatureMatches(functions[i].1, Get(functions, functions[i].0), assoc)
  {
    forall i | 0 <= i < |functions|
      ensures SignatureMatches(functions[i].1, Get(functions, functions[i].0), assoc)
    {
      GetOwn(functions, i);
    }
  }

  lemma BodiesMatchThemselves(functions: Table<FunctionInfo>)
    requires IsTable(functions)
    ensures (forall i :: 0 <= i < |functions| ==> BodyMatches(functions[i].1, Get(functions, functions[i].0)))
            <==> BodiesHaveText(functions)
  {
    forall i | 0 <= i < |functions|
      ensures BodyMatches(functions[i].1, Get(functions, functions[i].0))
              <==> (functions[i].1.operations == {} ==> functions[i].1.bodySource != "")
    {
      GetOwn(functions, i);
    }
  }

  /** A struct decompiled as an enum with the same members still scores full: kinds are not compared. */
  lemma KindIsNotScored(name: string, members: Table<MemberInfo>)
    requires IsTable(members)
    ensures TypesScore([(name, TypeInfo(Struct, members))], [(name, TypeInfo(Enum, members))]) == 100.0
  {
    var orig, decomp := [(name, TypeInfo(Struct, members))], [(name, TypeInfo(Enum, members))];
    forall j | 0 <= j < |members| ensures MemberMatches(Struct, members[j].1, Get(members, members[j].0)) {
      GetOwn(members, j);
    }
    TypesFullExactlyWhen(orig, decomp);
  }
}
