/** What the substitution machine makes of lifetimes.

    In Rust a tick starts a character literal or a lifetime; the machine knows literals only.
    Here the regions are those of Rust, and the texts on which the machine keeps to them are
    told apart from those on which it does not. */
module Lifetimes {
  import opened Scanner

  // ---------------------------------------------------------------------
  // The regions of Rust
  // ---------------------------------------------------------------------

  /** A tick starts a character literal if an escape, or one character and a tick, follows. */
  predicate OpensChar(s: string) {
    |s| > 1 && s[0] == '\'' && (s[1] == '\\' || (|s| > 2 && s[1] != '\'' && s[2] == '\''))
  }

  predicate RustOpens(s: string) { Opens(s) && (s[0] == '\'' ==> OpensChar(s)) }

  function RustCodeLength(s: string): (n: nat)
    ensures n <= |s|
    ensures n == 0 <==> s == "" || RustOpens(s)
  {
    if s == "" || RustOpens(s) then 0 else 1 + RustCodeLength(s[1..])
  }

  function RustRegions(s: string): seq<Region>
    decreases |s|
  {
    if s == "" then []
    else if RustOpens(s) then [Verbatim(s[..RegionLength(s)])] + RustRegions(s[RegionLength(s)..])
    else [Code(s[..RustCodeLength(s)])] + RustRegions(s[RustCodeLength(s)..])
  }

  /** Position `q` lies in no literal or comment. */
  predicate InCode(s: string, q: nat)
    requires q < |s|
    decreases |s|
  {
    if RustOpens(s) then RegionLength(s) <= q && InCode(s[RegionLength(s)..], q - RegionLength(s))
    else q == 0 || InCode(s[1..], q - 1)
  }

  /** Position `q` is code for the machine. */
  predicate TakenForCode(s: string, q: nat)
    requires q < |s|
    decreases |s|
  {
    if Opens(s) then RegionLength(s) <= q && TakenForCode(s[RegionLength(s)..], q - RegionLength(s))
    else q == 0 || TakenForCode(s[1..], q - 1)
  }

  /** The ticks outside literals and comments are those of lifetimes and labels. */
  predicate HasLifetime(s: string) { exists q :: 0 <= q < |s| && InCode(s, q) && s[q] == '\'' }

  /** A text that goes on with a name; it starts with `r` or with a character nothing opens with. */
  predicate StartsName(t: string) {
    t != "" && !OpensRaw(t) && (IsInert(t[0]) || (t[0] == 'r' && StartsName(t[1..])))
  }

  predicate LifetimesAreNamed(s: string) {
    forall q :: 0 <= q < |s| && InCode(s, q) && s[q] == '\'' ==> StartsName(s[q + 1..])
  }

  // ---------------------------------------------------------------------
  // Moving along a text
  // ---------------------------------------------------------------------

  /** The length of the first region, or 1 in code. */
  function Ahead(s: string): (n: nat)
    requires s != ""
    ensures 0 < n <= |s|
  {
    if RustOpens(s) then RegionLength(s) else 1
  }

  lemma InCodeAhead(s: string, q: nat)
    requires s != "" && q < |s| - Ahead(s)
    ensures InCode(s, Ahead(s) + q) == InCode(s[Ahead(s)..], q)
    ensures s[Ahead(s)..][q] == s[Ahead(s) + q] && s[Ahead(s)..][q + 1..] == s[Ahead(s) + q + 1..]
  {
    Slices(s, Ahead(s), q + 1);
    var n := Ahead(s);
    if RustOpens(s) {
      assert InCode(s, n + q) == InCode(s[n..], q);
    } else {
      assert InCode(s, 1 + q) == InCode(s[1..], q);
    }
  }

  lemma NoLifetimeAhead(s: string)
    requires s != "" && !HasLifetime(s)
    ensures !HasLifetime(s[Ahead(s)..]) && (s[0] == '\'' ==> RustOpens(s))
  {
    var t := s[Ahead(s)..];
    forall q | 0 <= q < |t| && InCode(t, q) ensures t[q] != '\'' { InCodeAhead(s, q); }
    assert !RustOpens(s) ==> InCode(s, 0);
  }

  lemma NamedAhead(s: string)
    requires s != "" && LifetimesAreNamed(s)
    ensures LifetimesAreNamed(s[Ahead(s)..])
  {
    var t := s[Ahead(s)..];
    forall q | 0 <= q < |t| && InCode(t, q) && t[q] == '\'' ensures StartsName(t[q + 1..]) { InCodeAhead(s, q); }
  }

  lemma LifetimeAhead(s: string)
    requires HasLifetime(s) && (s[0] == '\'' ==> RustOpens(s))
    ensures HasLifetime(s[Ahead(s)..])
  {
    var q :| 0 <= q < |s| && InCode(s, q) && s[q] == '\'';
    InCodeAhead(s, q - Ahead(s));
  }

  // ---------------------------------------------------------------------
  // Without lifetimes
  // ---------------------------------------------------------------------

  lemma {:induction false} SameCodeLength(s: string)
    requires !HasLifetime(s)
    ensures RustCodeLength(s) == CodeLength(s) && !HasLifetime(s[CodeLength(s)..])
  {
    if s == "" || Opens(s) {
      assert s[0..] == s;
      if s != "" { NoLifetimeAhead(s); }
    } else {
      NoLifetimeAhead(s);
      SameCodeLength(s[1..]);
      assert s[1..][CodeLength(s[1..])..] == s[CodeLength(s)..];
    }
  }

  lemma {:induction false} SameRegions(s: string)
    requires !HasLifetime(s)
    ensures RustRegions(s) == Regions(s)
    decreases |s|
  {
    if s != "" {
      NoLifetimeAhead(s);
      if Opens(s) {
        SameRegions(s[RegionLength(s)..]);
      } else {
        SameCodeLength(s);
        SameRegions(s[CodeLength(s)..]);
      }
    }
  }

  // ---------------------------------------------------------------------
  // Replacing one character by another shows what is code
  // ---------------------------------------------------------------------

  function Swap(c: char, d: char, x: char): char { if x == c then d else x }

  /** `r` is `s` with `c` replaced by `d` where `code` holds. */
  ghost predicate Swapped(s: string, r: string, c: char, d: char, code: nat -> bool) {
    |r| == |s| && forall q: nat :: q < |s| ==> r[q] == if code(q) then Swap(c, d, s[q]) else s[q]
  }

  /** A first part of `n` characters, all code or none of it, and the rest. */
  lemma SwappedInParts(s: string, n: nat, r: string, r': string, c: char, d: char, code: nat -> bool, code': nat -> bool)
    requires n <= |s| && |r| == n && Swapped(s[n..], r', c, d, code')
    requires forall q: nat :: q < n ==> r[q] == if code(q) then Swap(c, d, s[q]) else s[q]
    requires forall q: nat :: n <= q < |s| ==> code(q) == code'(q - n)
    ensures Swapped(s, r + r', c, d, code)
  {
    forall q: nat | q < |s| ensures (r + r')[q] == if code(q) then Swap(c, d, s[q]) else s[q] {
      if q >= n { assert (r + r')[q] == r'[q - n] && s[n..][q - n] == s[q]; }
    }
  }

  function CodeOf(s: string): nat -> bool { (q: nat) => q < |s| && InCode(s, q) }

  function TakenOf(s: string): nat -> bool { (q: nat) => q < |s| && TakenForCode(s, q) }

  lemma LiteralOne(s: string, r': string, c: char, d: char)
    requires s != "" && RustOpens(s) && Swapped(s[RegionLength(s)..], r', c, d, CodeOf(s[RegionLength(s)..]))
    ensures Swapped(s, s[..RegionLength(s)] + r', c, d, CodeOf(s))
  {
    var n := RegionLength(s);
    SwappedInParts(s, n, s[..n], r', c, d, CodeOf(s), CodeOf(s[n..]));
  }

  lemma CodeOne(s: string, r': string, c: char, d: char)
    requires s != "" && !RustOpens(s) && Swapped(s[1..], r', c, d, CodeOf(s[1..]))
    ensures Swapped(s, [Swap(c, d, s[0])] + r', c, d, CodeOf(s))
  {
    SwappedInParts(s, 1, [Swap(c, d, s[0])], r', c, d, CodeOf(s), CodeOf(s[1..]));
  }

  lemma RustStep(s: string, find: string, replacement: string)
    requires find != "" && s != ""
    ensures var n := if RustOpens(s) then RegionLength(s) else RustCodeLength(s);
            Assemble(RustRegions(s), find, replacement) ==
            (if RustOpens(s) then s[..n] else ReplaceAll(s[..n], find, replacement))
            + Assemble(RustRegions(s[n..]), find, replacement)
  {
  }

  /** One character of code. */
  lemma RustCodeStep(s: string, c: char, d: char)
    requires s != "" && !RustOpens(s)
    ensures Assemble(RustRegions(s), [c], [d]) == [Swap(c, d, s[0])] + Assemble(RustRegions(s[1..]), [c], [d])
  {
    var n := RustCodeLength(s);
    RustStep(s, [c], [d]);
    ReplaceHead(s[..n], c, d);
    SliceOfPrefix(s, 1, n);
    Slices(s, 1, n - 1);
    if n > 1 { RustStep(s[1..], [c], [d]); }
    Reassociate([Swap(c, d, s[0])], ReplaceAll(s[1..][..n - 1], [c], [d]), Assemble(RustRegions(s[n..]), [c], [d]));
  }

  lemma ReplaceHead(t: string, c: char, d: char)
    requires t != ""
    ensures ReplaceAll(t, [c], [d]) == [Swap(c, d, t[0])] + ReplaceAll(t[1..], [c], [d])
  {
    assert [c] <= t <==> t[0] == c;
  }

  lemma {:induction false} AssembleOne(s: string, c: char, d: char)
    ensures Swapped(s, Assemble(RustRegions(s), [c], [d]), c, d, CodeOf(s))
    decreases |s|
  {
    if s == "" {
    } else if RustOpens(s) {
      RustStep(s, [c], [d]);
      AssembleOne(s[RegionLength(s)..], c, d);
      LiteralOne(s, Assemble(RustRegions(s[RegionLength(s)..]), [c], [d]), c, d);
    } else {
      RustCodeStep(s, c, d);
      AssembleOne(s[1..], c, d);
      CodeOne(s, Assemble(RustRegions(s[1..]), [c], [d]), c, d);
    }
  }

  lemma TakenStep(s: string, n: nat, c: char)
    requires s != "" && n == Advance(s, [c])
    ensures forall q: nat :: q < n ==> TakenOf(s)(q) == !Opens(s)
    ensures forall q: nat :: n <= q < |s| ==> TakenOf(s)(q) == TakenOf(s[n..])(q - n)
  {
  }

  lemma ScanStepOne(s: string, n: nat, r': string, c: char, d: char)
    requires s != "" && n == Advance(s, [c]) && Swapped(s[n..], r', c, d, TakenOf(s[n..]))
    ensures Swapped(s, Written(s, [c], [d]) + r', c, d, TakenOf(s))
  {
    TakenStep(s, n, c);
    WrittenOne(s, n, c, d);
    SwappedInParts(s, n, Written(s, [c], [d]), r', c, d, TakenOf(s), TakenOf(s[n..]));
  }

  lemma WrittenOne(s: string, n: nat, c: char, d: char)
    requires s != "" && n == Advance(s, [c])
    ensures |Written(s, [c], [d])| == n
    ensures forall q: nat :: q < n ==> Written(s, [c], [d])[q] == if Opens(s) then s[q] else Swap(c, d, s[q])
  {
    assert [c] <= s <==> s[0] == c;
  }

  lemma {:induction false} ScanOne(s: string, c: char, d: char)
    requires IsInert(c)
    ensures Swapped(s, Scan(s, [c], [d]), c, d, TakenOf(s))
    decreases |s|
  {
    if s != "" {
      var n := Advance(s, [c]);
      ScanOne(s[n..], c, d);
      ScanStepOne(s, n, Scan(s[n..], [c], [d]), c, d);
    }
  }

  // ---------------------------------------------------------------------
  // With a lifetime
  // ---------------------------------------------------------------------

  /** A name is code, up to and including its first inert character. */
  lemma {:induction false} NameIsCode(t: string) returns (j: nat)
    requires StartsName(t) && t[0] != '\\'
    ensures j < |t| && IsInert(t[j]) && InCode(t, j) && j < QuotedLength('\'', t)
  {
    if IsInert(t[0]) {
      j := 0;
    } else {
      var u := t[1..];
      if u[0] == '\\' {
        j := 1;
      } else {
        j := NameIsCode(u);
        j := j + 1;
      }
    }
  }

  /** The name of the first lifetime is code, and the machine takes it for a literal. */
  lemma {:induction false} CodeTakenForLiteral(s: string) returns (p: nat)
    requires HasLifetime(s) && LifetimesAreNamed(s)
    ensures p < |s| && IsInert(s[p]) && InCode(s, p) && !TakenForCode(s, p)
    decreases |s|
  {
    if s[0] == '\'' && !RustOpens(s) {
      p := NameTakenForLiteral(s);
    } else {
      LifetimeAhead(s);
      NamedAhead(s);
      p := CodeTakenForLiteral(s[Ahead(s)..]);
      InCodeAhead(s, p);
      TakenAhead(s, p);
      p := p + Ahead(s);
    }
  }

  lemma NameTakenForLiteral(s: string) returns (p: nat)
    requires s != "" && s[0] == '\'' && !RustOpens(s) && LifetimesAreNamed(s)
    ensures p < |s| && IsInert(s[p]) && InCode(s, p) && !TakenForCode(s, p)
  {
    assert InCode(s, 0);
    p := NameIsCode(s[1..]);
    p := p + 1;
  }

  lemma TakenAhead(s: string, q: nat)
    requires s != "" && q < |s| - Ahead(s) && (s[0] == '\'' ==> RustOpens(s))
    ensures TakenForCode(s, Ahead(s) + q) == TakenForCode(s[Ahead(s)..], q)
  {
  }

  // ---------------------------------------------------------------------
  // The exact conditions
  // ---------------------------------------------------------------------

  ghost predicate MeetsRust(s: string, find: string, replacement: string)
    requires find != ""
  {
    Scan(s, find, replacement) == Assemble(RustRegions(s), find, replacement)
  }

  /** The substitutions of inert texts keep to Rust's literals and comments on exactly the
      texts without a lifetime. */
  lemma InertMeetsRustExactlyWhen(s: string)
    requires LifetimesAreNamed(s)
    ensures (forall find, replacement | find != "" && Inert(find) :: MeetsRust(s, find, replacement)) <==> !HasLifetime(s)
  {
    if HasLifetime(s) {
      var p := CodeTakenForLiteral(s);
      var c, d := s[p], if s[p] == 'x' then 'y' else 'x';
      ScanOne(s, c, d);
      AssembleOne(s, c, d);
      assert Scan(s, [c], [d])[p] == c && Assemble(RustRegions(s), [c], [d])[p] == d;
      assert Inert([c]) && !MeetsRust(s, [c], [d]);
    } else {
      forall find, replacement | find != "" && Inert(find) ensures MeetsRust(s, find, replacement) {
        InertRefines(find, replacement);
        SameRegions(s);
      }
    }
  }

  /** The substitutions that keep to the machine's own literals keep to Rust's on exactly the
      texts without a lone tick in code, whatever follows the ticks. */
  lemma MeetsRustExactlyWhen(s: string)
    ensures (forall find, replacement | find != "" && Refines(find, replacement) :: MeetsRust(s, find, replacement))
            <==> !HasLifetime(s)
  {
    if HasLifetime(s) {
      var find, replacement := "'", "x";
      RefinesExactlyWhen(find, replacement);
      ScanKeeps(s, find, replacement);
      AssembleOne(s, '\'', 'x');
      assert !MeetsRust(s, find, replacement);
    } else {
      forall find, replacement | find != "" && Refines(find, replacement) ensures MeetsRust(s, find, replacement) {
        SameRegions(s);
      }
    }
  }

  /** The machine takes the tick of a lifetime for the start of a character literal, so code
      after a lone lifetime is not rewritten although it lies in no literal. */
  lemma LifetimeHidesCode(s: string, find: string, replacement: string)
    requires find != "" && s != "" && s[0] == '\'' && (forall k :: 0 < k < |s| ==> s[k] != '\'')
    ensures Scan(s, find, replacement) == s
  {
    NoQuoteNoEnd('\'', s[1..]);
    assert RegionLength(s) == |s|;
  }

  lemma {:induction false} NoQuoteNoEnd(quote: char, s: string)
    requires quote != '\\' && forall k :: 0 <= k < |s| ==> s[k] != quote
    ensures QuotedLength(quote, s) == |s|
    decreases |s|
  {
    if s != "" {
      NoQuoteNoEnd(quote, if s[0] == '\\' && |s| > 1 then s[2..] else s[1..]);
    }
  }

  /** In `f<'a>(){g("it's & env, x")}` the machine takes the lifetime's tick and the apostrophe for
      the ends of one character literal, so the rest of the string is code to it and is rewritten,
      whatever follows. */
  lemma StringAfterLifetimeIsRewritten(v: string)
    ensures Scan(HEAD + "& env," + v, "& env,", "&env,") == HEAD + "&env," + Scan(v, "& env,", "&env,")
    ensures var rs := RustRegions(HEAD + "& env," + v);
            |rs| >= 2 && rs[0] == Code("f<'a>(){g(") && rs[1].Verbatim? && "\"it's & env," <= rs[1].text
  {
    MachineRewrites(v, "& env,", "&env,");
    RustSeesString(HEAD + "& env," + v);
  }

  lemma MachineRewrites(v: string, find: string, replacement: string)
    requires find != "" && find[0] == '&'
    ensures Scan(HEAD + find + v, find, replacement) == HEAD + replacement + Scan(v, find, replacement)
  {
    HeadGlued(find, v);
    MachineSeesLiteral(v, find, replacement);
    HeadGlued(replacement, Scan(v, find, replacement));
  }

  const HEAD := "f<'a>(){g(\"it's "
  const TICK_TO_TICK := "'a>(){g(\"it'"

  lemma HeadGlued(text: string, v: string)
    ensures "f<" + (TICK_TO_TICK + ("s " + (text + v))) == HEAD + text + v
  {
    assert "f<" + TICK_TO_TICK + "s " == HEAD;
    Glue("f<", TICK_TO_TICK, "s ", text, v);
  }

  lemma Glue(a: string, b: string, c: string, d: string, e: string)
    ensures a + (b + (c + (d + e))) == a + b + c + d + e
  {
  }

  lemma MachineSeesLiteral(v: string, find: string, replacement: string)
    requires find != "" && find[0] == '&'
    ensures Scan("f<" + (TICK_TO_TICK + ("s " + (find + v))), find, replacement)
            == "f<" + (TICK_TO_TICK + ("s " + (replacement + Scan(v, find, replacement))))
  {
    MatchAhead(v, find, replacement);
    InertKept("s ", find + v, find, replacement);
    TickToTick("s " + (find + v), find, replacement);
    InertKept("f<", TICK_TO_TICK + ("s " + (find + v)), find, replacement);
  }

  lemma MatchAhead(v: string, find: string, replacement: string)
    requires find != "" && IsInert(find[0])
    ensures Scan(find + v, find, replacement) == replacement + Scan(v, find, replacement)
  {
    assert (find + v)[|find|..] == v && (find + v)[0] == find[0];
  }

  lemma TickToTick(w: string, find: string, replacement: string)
    requires find != ""
    ensures Scan(TICK_TO_TICK + w, find, replacement) == TICK_TO_TICK + Scan(w, find, replacement)
  {
    var s := TICK_TO_TICK + w;
    QuoteAt('\'', s[1..], 10);
    assert RegionLength(s) == 12;
    assert s[..12] == TICK_TO_TICK && s[12..] == w;
  }

  /** A literal ends at the first quote if no backslash comes before it. */
  lemma {:induction false} QuoteAt(quote: char, s: string, k: nat)
    requires quote != '\\' && k < |s| && s[k] == quote && forall i :: 0 <= i < k ==> s[i] != quote && s[i] != '\\'
    ensures QuotedLength(quote, s) == k + 1
  {
    if k > 0 { QuoteAt(quote, s[1..], k - 1); }
  }

  lemma RustSeesString(s: string)
    requires HEAD + "& env," <= s
    ensures var rs := RustRegions(s);
            |rs| >= 2 && rs[0] == Code("f<'a>(){g(") && rs[1].Verbatim? && "\"it's & env," <= rs[1].text
  {
    forall k | 0 <= k < 10 ensures !RustOpens(s[k..]) { HeadOpensNothing(s, k); }
    assert s[10..][0] == '"';
    RustCodeStops(s, 10);
    HeadPieces(s);
    StringGoesOn(s[10..]);
    assert RustRegions(s) == [Code(s[..10])] + RustRegions(s[10..]);
  }

  lemma HeadPieces(s: string)
    requires HEAD + "& env," <= s
    ensures s[..10] == "f<'a>(){g(" && "\"it's & env," <= s[10..]
  {
    var head := HEAD + "& env,";
    assert |head| == 22 && head == s[..22];
    assert s[..10] == head[..10] && s[10..][..12] == head[10..];
    assert head[..10] == "f<'a>(){g(" && head[10..] == "\"it's & env,";
  }

  lemma StringGoesOn(t: string)
    requires "\"it's & env," <= t
    ensures RustRegions(t) != [] && RustRegions(t)[0].Verbatim? && "\"it's & env," <= RustRegions(t)[0].text
  {
    NoQuoteYet('"', t[1..], 11);
    assert RustRegions(t)[0] == Verbatim(t[..RegionLength(t)]);
    assert t[..RegionLength(t)][..12] == t[..12];
  }

  lemma HeadOpensNothing(s: string, k: nat)
    requires "f<'a>(){g(\"" <= s && k < 10
    ensures !RustOpens(s[k..])
  {
    assert s[k..][0] == s[k];
    if k == 2 { assert s[k..][1] == 'a' && s[k..][2] == '>'; }
  }

  lemma {:induction false} RustCodeStops(s: string, k: nat)
    requires k < |s| && RustOpens(s[k..]) && forall j :: 0 <= j < k ==> !RustOpens(s[j..])
    ensures RustCodeLength(s) == k
  {
    assert s[0..] == s;
    if k > 0 {
      forall j | 0 <= j < k - 1 ensures !RustOpens(s[1..][j..]) { assert s[1..][j..] == s[j + 1..]; }
      assert s[1..][k - 1..] == s[k..];
      RustCodeStops(s[1..], k - 1);
    }
  }

  lemma {:induction false} NoQuoteYet(quote: char, s: string, k: nat)
    requires k <= |s| && forall i :: 0 <= i < k ==> s[i] != quote && s[i] != '\\'
    ensures QuotedLength(quote, s) >= k
  {
    if k > 0 { NoQuoteYet(quote, s[1..], k - 1); }
  }
}
