/** The two substitutions that `format_source` makes one after the other. */
module Formatter {
  import opened Scanner

  datatype Sub = Sub(find: string, replacement: string)

  function Run(s: string, a: Sub): string
    requires a.find != ""
  {
    Scan(s, a.find, a.replacement)
  }

  // ---------------------------------------------------------------------
  // Both at once
  // ---------------------------------------------------------------------

  /** The sub-texts of code that match either text are replaced, from the left and without overlap. */
  function ReplaceBoth(t: string, a: Sub, b: Sub): string
    requires a.find != "" && b.find != ""
    decreases |t|
  {
    if t == "" then "" else WrittenBoth(t, a, b) + ReplaceBoth(t[StepBoth(t, a, b)..], a, b)
  }

  function StepBoth(t: string, a: Sub, b: Sub): (n: nat)
    requires a.find != "" && b.find != "" && t != ""
    ensures 0 < n <= |t|
  {
    if a.find <= t then |a.find| else if b.find <= t then |b.find| else 1
  }

  function WrittenBoth(t: string, a: Sub, b: Sub): string
    requires t != ""
  {
    if a.find <= t then a.replacement else if b.find <= t then b.replacement else [t[0]]
  }

  /** Literals and comments verbatim, both texts replaced in code. */
  function AssembleBoth(regions: seq<Region>, a: Sub, b: Sub): string
    requires a.find != "" && b.find != ""
  {
    if regions == [] then ""
    else
      (if regions[0].Code? then ReplaceBoth(regions[0].text, a, b) else regions[0].text)
      + AssembleBoth(regions[1..], a, b)
  }

  /** One run that tries both texts. */
  function ScanBoth(s: string, a: Sub, b: Sub): string
    requires a.find != "" && b.find != ""
    decreases |s|
  {
    if s == "" then ""
    else if Opens(s) then s[..RegionLength(s)] + ScanBoth(s[RegionLength(s)..], a, b)
    else WrittenBoth(s, a, b) + ScanBoth(s[StepBoth(s, a, b)..], a, b)
  }

  // ---------------------------------------------------------------------
  // One run after the other
  // ---------------------------------------------------------------------

  /** Nothing the first run writes can begin or complete a match of the second. */
  predicate Composes(a: Sub, b: Sub) {
    && Settles(a.find, a.replacement) && Settles(b.find, b.replacement)
    && a.find[0] == b.find[0] && a.find[0] !in b.find[1..]
    && a.replacement[1] != b.find[1]
  }

  lemma {:induction false} OneAfterTheOther(s: string, a: Sub, b: Sub)
    requires Composes(a, b)
    ensures Run(Run(s, a), b) == ScanBoth(s, a, b)
    decreases |s|
  {
    if s != "" {
      if Opens(s) {
        OneAfterTheOther(s[RegionLength(s)..], a, b);
        RegionThrough(s, a, b);
      } else {
        OneAfterTheOther(s[StepBoth(s, a, b)..], a, b);
        if a.find <= s {
          FirstThrough(s[|a.find|..], a, b);
        } else if b.find <= s {
          SecondThrough(s, a, b);
        } else {
          PlainThrough(s, a, b);
        }
      }
    }
  }

  lemma RegionThrough(s: string, a: Sub, b: Sub)
    requires Composes(a, b) && Opens(s)
    ensures Run(Run(s, a), b) == s[..RegionLength(s)] + Run(Run(s[RegionLength(s)..], a), b)
  {
    var n := RegionLength(s);
    var u := Run(s[n..], a);
    var t := s[..n] + u;
    if n < |s| { RegionKept(s, u); } else { assert t == s; }
    assert t[..n] == s[..n] && t[n..] == u;
  }

  /** A match of the first text. */
  lemma FirstThrough(s: string, a: Sub, b: Sub)
    requires Composes(a, b)
    ensures Run(a.replacement + Run(s, a), b) == a.replacement + Run(Run(s, a), b)
  {
    var w, u := a.replacement, Run(s, a);
    assert (w + u)[1] == w[1];
    InertKept(w[1..], u, b.find, b.replacement);
    InertStep(w, u, b.find, b.replacement);
  }

  /** A match of the second text is still one after the first run. */
  lemma SecondThrough(s: string, a: Sub, b: Sub)
    requires Composes(a, b) && b.find <= s && !(a.find <= s)
    ensures var u := s[|b.find|..];
            Run(s, a) == b.find + Run(u, a) && Run(Run(s, a), b) == b.replacement + Run(Run(u, a), b)
  {
    var w, u := b.find, s[|b.find|..];
    assert s == w + u;
    InertKept(w[1..], u, a.find, a.replacement);
    InertStep(w, u, a.find, a.replacement);
    MatchHere(Run(u, a), b);
  }

  lemma MatchHere(u: string, b: Sub)
    requires b.find != "" && IsInert(b.find[0])
    ensures Run(b.find + u, b) == b.replacement + Run(u, b)
  {
    assert (b.find + u)[|b.find|..] == u && (b.find + u)[0] == b.find[0];
  }

  lemma PlainThrough(s: string, a: Sub, b: Sub)
    requires Composes(a, b) && s != "" && !Opens(s) && !(a.find <= s) && !(b.find <= s)
    ensures Run(Run(s, a), b) == [s[0]] + Run(Run(s[1..], a), b)
  {
    var u := Run(s[1..], a);
    var t := [s[0]] + u;
    StillNoOpening(s, a.find, a.replacement);
    assert t[1..] == u;
    if b.find <= t {
      assert b.find[1..] <= u;
      TailWasThere(b.find[1..], s[1..], a.find, a.replacement);
    }
    PlainScan(t, b.find, b.replacement);
  }

  // ---------------------------------------------------------------------
  // Region by region
  // ---------------------------------------------------------------------

  /** `scan` and `replace` name what the run and the replacement make of a text. */
  ghost predicate NamesBoth(scan: string -> string, replace: string -> string, a: Sub, b: Sub)
    requires a.find != "" && b.find != ""
  {
    && (forall s: string {:trigger ScanBoth(s, a, b)} :: scan(s) == ScanBoth(s, a, b))
    && (forall s: string {:trigger ReplaceBoth(s, a, b)} :: replace(s) == ReplaceBoth(s, a, b))
  }

  /** `c` characters of code are replaced, and the run goes on after them. */
  predicate CodeReplacedBoth(s: string, c: nat, scan: string -> string, replace: string -> string)
    requires c <= |s|
  {
    scan(s) == replace(s[..c]) + scan(s[c..])
  }

  lemma CodeGoesOnBoth(s: string, a: Sub, b: Sub, k: nat)
    requires Composes(a, b) && s != "" && !Opens(s) && k == StepBoth(s, a, b)
    ensures CodeLength(s) == k + CodeLength(s[k..])
  {
    if a.find <= s {
      InertOpensNothing(a.find);
      MatchStaysInCode(s, a.find);
    } else if b.find <= s {
      InertOpensNothing(b.find);
      MatchStaysInCode(s, b.find);
    }
  }

  lemma ScanBothAfter(s: string, k: nat, a: Sub, b: Sub, scan: string -> string, replace: string -> string)
    requires a.find != "" && b.find != "" && s != "" && !Opens(s) && k == StepBoth(s, a, b)
    requires NamesBoth(scan, replace, a, b)
    ensures scan(s) == WrittenBoth(s, a, b) + scan(s[k..])
  {
    assert scan(s) == ScanBoth(s, a, b) && scan(s[k..]) == ScanBoth(s[k..], a, b);
  }

  lemma ReplaceBothAfter(t: string, k: nat, a: Sub, b: Sub, scan: string -> string, replace: string -> string)
    requires a.find != "" && b.find != "" && t != "" && k == StepBoth(t, a, b)
    requires NamesBoth(scan, replace, a, b)
    ensures replace(t) == WrittenBoth(t, a, b) + replace(t[k..])
  {
    assert replace(t) == ReplaceBoth(t, a, b) && replace(t[k..]) == ReplaceBoth(t[k..], a, b);
  }

  lemma CodeAfterBoth(s: string, c: nat, k: nat, a: Sub, b: Sub, scan: string -> string, replace: string -> string)
    requires a.find != "" && b.find != "" && s != "" && !Opens(s) && k == StepBoth(s, a, b) && k + c <= |s|
    requires NamesBoth(scan, replace, a, b)
    requires CodeReplacedBoth(s[k..], c, scan, replace)
    ensures CodeReplacedBoth(s, k + c, scan, replace)
  {
    SliceOfPrefix(s, k, k + c);
    Slices(s, k, c);
    ScanBothAfter(s, k, a, b, scan, replace);
    SameStep(s, k + c, k, a, b);
    ReplaceBothAfter(s[..k + c], k, a, b, scan, replace);
    Reassociate(WrittenBoth(s, a, b), replace(s[k..][..c]), scan(s[k + c..]));
  }

  /** Cutting a text behind its first step does not change that step. */
  lemma SameStep(s: string, n: nat, k: nat, a: Sub, b: Sub)
    requires a.find != "" && b.find != "" && s != "" && k == StepBoth(s, a, b) && k <= n <= |s|
    ensures s[..n] != "" && StepBoth(s[..n], a, b) == k && WrittenBoth(s[..n], a, b) == WrittenBoth(s, a, b)
  {
    assert a.find <= s[..n] <==> a.find <= s && |a.find| <= n;
    assert b.find <= s[..n] <==> b.find <= s && |b.find| <= n;
  }

  lemma NoCodeLeftBoth(s: string, a: Sub, b: Sub, scan: string -> string, replace: string -> string)
    requires a.find != "" && b.find != "" && NamesBoth(scan, replace, a, b)
    ensures CodeReplacedBoth(s, 0, scan, replace)
  {
    assert ReplaceBoth(s[..0], a, b) == "";
    assert s[0..] == s;
  }

  lemma {:induction false} CodeBoth(s: string, c: nat, a: Sub, b: Sub, scan: string -> string, replace: string -> string)
    requires Composes(a, b) && c == CodeLength(s) && NamesBoth(scan, replace, a, b)
    ensures CodeReplacedBoth(s, c, scan, replace)
    decreases |s|
  {
    if c == 0 {
      NoCodeLeftBoth(s, a, b, scan, replace);
    } else {
      var k := StepBoth(s, a, b);
      CodeGoesOnBoth(s, a, b, k);
      CodeBoth(s[k..], c - k, a, b, scan, replace);
      CodeAfterBoth(s, c - k, k, a, b, scan, replace);
    }
  }

  lemma ScanCodeBoth(s: string, a: Sub, b: Sub)
    requires Composes(a, b)
    ensures var c := CodeLength(s); ScanBoth(s, a, b) == ReplaceBoth(s[..c], a, b) + ScanBoth(s[c..], a, b)
  {
    var scan := (t: string) => ScanBoth(t, a, b);
    var replace := (t: string) => ReplaceBoth(t, a, b);
    CodeBoth(s, CodeLength(s), a, b, scan, replace);
  }

  lemma {:induction false} BothByRegion(s: string, a: Sub, b: Sub)
    requires Composes(a, b)
    ensures ScanBoth(s, a, b) == AssembleBoth(Regions(s), a, b)
    decreases |s|
  {
    if s != "" {
      if Opens(s) {
        BothByRegion(s[RegionLength(s)..], a, b);
      } else {
        ScanCodeBoth(s, a, b);
        BothByRegion(s[CodeLength(s)..], a, b);
      }
    }
  }

  // ---------------------------------------------------------------------
  // Order and repetition
  // ---------------------------------------------------------------------

  predicate Apart(a: Sub, b: Sub) { !(a.find <= b.find) && !(b.find <= a.find) }

  lemma NotBoth(s: string, a: Sub, b: Sub)
    requires Apart(a, b)
    ensures !(a.find <= s && b.find <= s)
  {
  }

  lemma {:induction false} OrderDoesNotMatter(s: string, a: Sub, b: Sub)
    requires a.find != "" && b.find != "" && Apart(a, b)
    ensures ScanBoth(s, a, b) == ScanBoth(s, b, a)
    decreases |s|
  {
    if s != "" {
      if Opens(s) {
        OrderDoesNotMatter(s[RegionLength(s)..], a, b);
      } else {
        NotBoth(s, a, b);
        OrderDoesNotMatter(s[StepBoth(s, a, b)..], a, b);
      }
    }
  }

  /** The two runs commute, and a second pair of them changes nothing. */
  lemma PairSettles(s: string, a: Sub, b: Sub)
    requires Composes(a, b) && Composes(b, a) && Apart(a, b)
    ensures Run(Run(s, a), b) == Run(Run(s, b), a)
    ensures var once := Run(Run(s, a), b); Run(Run(once, a), b) == once
  {
    OneAfterTheOther(s, a, b);
    OneAfterTheOther(s, b, a);
    OrderDoesNotMatter(s, a, b);
    SecondRunChangesNothing(Run(s, b), a.find, a.replacement);
    SecondRunChangesNothing(Run(s, a), b.find, b.replacement);
  }

  // ---------------------------------------------------------------------
  // The formatter
  // ---------------------------------------------------------------------

  const COMMA := Sub("& env,", "&env,")
  const CLOSE := Sub("& env)", "&env)")

  /** The two runs of `format_source`: in code, and in code only, the space after `&` goes. */
  method CollapseEnvSpaces(source: string) returns (out: string)
    ensures out == AssembleBoth(Regions(source), COMMA, CLOSE)
  {
    out := ReplaceOutsideStrings(source, COMMA.find, COMMA.replacement);
    out := ReplaceOutsideStrings(out, CLOSE.find, CLOSE.replacement);
    FormatterSubstitutions(source);
  }

  /** One run after the other is one replacement of both texts in the code regions of the text,
      in either order, and the pair of them settles at once. */
  lemma FormatterSubstitutions(s: string)
    ensures Refines(COMMA.find, COMMA.replacement) && Refines(CLOSE.find, CLOSE.replacement)
    ensures Run(Run(s, COMMA), CLOSE) == AssembleBoth(Regions(s), COMMA, CLOSE)
    ensures Run(Run(s, COMMA), CLOSE) == Run(Run(s, CLOSE), COMMA)
    ensures var once := Run(Run(s, COMMA), CLOSE); Run(Run(once, COMMA), CLOSE) == once
  {
    PairComposes();
    InertRefines(COMMA.find, COMMA.replacement);
    InertRefines(CLOSE.find, CLOSE.replacement);
    OneAfterTheOther(s, COMMA, CLOSE);
    BothByRegion(s, COMMA, CLOSE);
    PairSettles(s, COMMA, CLOSE);
  }

  lemma PairComposes()
    ensures Composes(COMMA, CLOSE) && Composes(CLOSE, COMMA) && Apart(COMMA, CLOSE)
  {
    CommaSettles();
    CloseSettles();
    assert COMMA.find[5] != CLOSE.find[5];
  }

  lemma CommaSettles()
    ensures Settles(COMMA.find, COMMA.replacement)
  {
  }

  lemma CloseSettles()
    ensures Settles(CLOSE.find, CLOSE.replacement)
  {
  }
}
