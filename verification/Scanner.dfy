/** The literal-aware substitution that runs over formatted source text.

    The program is a one-pass machine with six states. The specification splits the text into
    regions first, without looking at the substitution, and replaces inside code regions only. */
module Scanner {

  datatype Mode = Normal | InString | InChar | Raw(hashes: nat) | LineComment | BlockComment(depth: nat)

  // ---------------------------------------------------------------------
  // Regions
  // ---------------------------------------------------------------------

  /** The number of `#` characters a text starts with. */
  function Hashes(s: string): (n: nat)
    ensures n <= |s| && (n < |s| ==> s[n] != '#')
    ensures forall k :: 0 <= k < n ==> s[k] == '#'
  {
    if s != "" && s[0] == '#' then 1 + Hashes(s[1..]) else 0
  }

  predicate OpensRaw(s: string) {
    s != "" && s[0] == 'r' && 1 + Hashes(s[1..]) < |s| && s[1 + Hashes(s[1..])] == '"'
  }

  /** The mode a text opens with: `Normal` when it starts with plain code. */
  function OpenedMode(s: string): Mode {
    if s == "" then Normal
    else if OpensRaw(s) then Raw(Hashes(s[1..]))
    else if s[0] == '"' then InString
    else if s[0] == '\'' then InChar
    else if s[0] == '/' && |s| > 1 && s[1] == '/' then LineComment
    else if s[0] == '/' && |s| > 1 && s[1] == '*' then BlockComment(1)
    else Normal
  }

  predicate Opens(s: string) { !OpenedMode(s).Normal? }

  function OpenerLength(s: string): (n: nat)
    ensures n <= |s|
    ensures n > 0 <==> Opens(s)
  {
    match OpenedMode(s)
    case Normal => 0
    case InString => 1
    case InChar => 1
    case Raw(hashes) => hashes + 2
    case LineComment => 2
    case BlockComment(_) => 2
  }

  predicate ClosesRaw(s: string, hashes: nat) {
    s != "" && s[0] == '"' && Hashes(s[1..]) >= hashes
  }

  /** How far the body of an opened literal or comment goes, its closer included; a body
      without a closer takes the rest of the text. */
  function BodyLength(mode: Mode, s: string): (n: nat)
    ensures n <= |s|
    decreases |s|
  {
    if s == "" then 0
    else
      match mode
      case Normal => 0
      case InString => QuotedLength('"', s)
      case InChar => QuotedLength('\'', s)
      case Raw(hashes) => if ClosesRaw(s, hashes) then 1 + hashes else 1 + BodyLength(mode, s[1..])
      case LineComment => if s[0] == '\n' then 1 else 1 + BodyLength(mode, s[1..])
      case BlockComment(depth) =>
        if s[0] == '*' && |s| > 1 && s[1] == '/' then 2 + BodyLength(Outer(depth), s[2..])
        else if s[0] == '/' && |s| > 1 && s[1] == '*' then 2 + BodyLength(BlockComment(depth + 1), s[2..])
        else 1 + BodyLength(mode, s[1..])
  }

  function Outer(depth: nat): Mode { if depth <= 1 then Normal else BlockComment(depth - 1) }

  function QuotedLength(quote: char, s: string): (n: nat)
    ensures n <= |s|
    decreases |s|
  {
    if s == "" then 0
    else if s[0] == '\\' && |s| > 1 then 2 + QuotedLength(quote, s[2..])
    else if s[0] == quote then 1
    else 1 + QuotedLength(quote, s[1..])
  }

  /** The length of the literal or comment a text starts with; 0 when it starts with code. */
  function RegionLength(s: string): (n: nat)
    ensures n <= |s|
    ensures n > 0 <==> Opens(s)
  {
    OpenerLength(s) + BodyLength(OpenedMode(s), s[OpenerLength(s)..])
  }

  /** The length of the code before the first literal or comment. */
  function CodeLength(s: string): (n: nat)
    ensures n <= |s|
    ensures n == 0 <==> s == "" || Opens(s)
  {
    if s == "" || Opens(s) then 0 else 1 + CodeLength(s[1..])
  }

  datatype Region = Code(text: string) | Verbatim(text: string)

  /** A text split into alternating regions. */
  function Regions(s: string): seq<Region>
    decreases |s|
  {
    if s == "" then []
    else if Opens(s) then [Verbatim(s[..RegionLength(s)])] + Regions(s[RegionLength(s)..])
    else [Code(s[..CodeLength(s)])] + Regions(s[CodeLength(s)..])
  }

  function Text(regions: seq<Region>): string {
    if regions == [] then "" else regions[0].text + Text(regions[1..])
  }

  /** Nothing is lost by splitting. */
  lemma {:induction false} RegionsCoverText(s: string)
    ensures Text(Regions(s)) == s
    decreases |s|
  {
    if s != "" {
      var n := if Opens(s) then RegionLength(s) else CodeLength(s);
      RegionsCoverText(s[n..]);
      Joins(s, n);
    }
  }

  /** Code regions are maximal and hold no opening. */
  lemma {:induction false} CodeOpensNothing(s: string, k: nat)
    requires k < CodeLength(s)
    ensures !Opens(s[k..])
  {
    if k > 0 {
      CodeOpensNothing(s[1..], k - 1);
      assert s[1..][k - 1..] == s[k..];
    } else {
      assert s[k..] == s;
    }
  }

  lemma {:induction false} CodeStopsAtOpening(s: string, k: nat)
    requires k <= |s| && forall j :: 0 <= j < k ==> !Opens(s[j..])
    ensures k <= CodeLength(s)
    ensures CodeLength(s) == k + CodeLength(s[k..])
  {
    if k == 0 {
      assert s[k..] == s;
    } else {
      assert s[0..] == s;
      forall j | 0 <= j < k - 1 ensures !Opens(s[1..][j..]) {
        assert s[1..][j..] == s[j + 1..];
      }
      CodeStopsAtOpening(s[1..], k - 1);
      assert s[1..][k - 1..] == s[k..];
    }
  }

  lemma {:induction false} CodeEndsAtOpening(s: string)
    ensures var c := CodeLength(s); c < |s| ==> Opens(s[c..])
  {
    if s == "" || Opens(s) {
      assert s[0..] == s;
    } else {
      CodeEndsAtOpening(s[1..]);
      assert s[CodeLength(s)..] == s[1..][CodeLength(s[1..])..];
    }
  }

  // ---------------------------------------------------------------------
  // Substitution
  // ---------------------------------------------------------------------

  /** The least position of `find` in `t`, or `|t|` when there is none. */
  function FirstMatch(t: string, find: string): (p: nat)
    ensures p <= |t| && (p < |t| ==> find <= t[p..])
  {
    if t == "" || find <= t then 0
    else
      var p := FirstMatch(t[1..], find);
      assert p < |t[1..]| ==> t[1..][p..] == t[p + 1..];
      1 + p
  }

  lemma {:induction false} FirstMatchIsLeast(t: string, find: string, j: nat)
    requires j < |t| && find <= t[j..]
    ensures FirstMatch(t, find) <= j
    decreases |t|
  {
    if j > 0 {
      assert t[1..][j - 1..] == t[j..];
      FirstMatchIsLeast(t[1..], find, j - 1);
    } else {
      assert t[0..] == t;
    }
  }

  /** Non-overlapping replacement from the left. */
  function ReplaceAll(t: string, find: string, replacement: string): string
    requires find != ""
    decreases |t|
  {
    if t == "" then ""
    else
      var k := if find <= t then |find| else 1;
      (if find <= t then replacement else [t[0]]) + ReplaceAll(t[k..], find, replacement)
  }

  /** `r` is `t` with the match at `p` replaced, and the text after it. */
  predicate ReplacedAt(t: string, r: string, p: nat, find: string, replacement: string)
    requires find != "" && p <= |t| && (p < |t| ==> p + |find| <= |t|)
  {
    r == if p == |t| then t else t[..p] + (replacement + ReplaceAll(t[p + |find|..], find, replacement))
  }

  /** The leftmost match is replaced first, then what follows it. */
  lemma {:induction false} ReplaceAllIsLeftmost(t: string, find: string, replacement: string)
    requires find != ""
    ensures ReplacedAt(t, ReplaceAll(t, find, replacement), FirstMatch(t, find), find, replacement)
    decreases |t|
  {
    if t == "" {
    } else if find <= t {
      LeftmostHere(t, find, replacement);
    } else {
      ReplaceAllIsLeftmost(t[1..], find, replacement);
      var p, r := FirstMatch(t[1..], find), ReplaceAll(t[1..], find, replacement);
      LeftmostLater(t, p, r, find, replacement);
      ReplacedLater(t, r, p, find, replacement);
    }
  }

  lemma LeftmostHere(t: string, find: string, replacement: string)
    requires find != "" && find <= t
    ensures FirstMatch(t, find) == 0 && ReplacedAt(t, ReplaceAll(t, find, replacement), 0, find, replacement)
  {
    EmptyPrefix(t, replacement + ReplaceAll(t[|find|..], find, replacement));
  }

  lemma LeftmostLater(t: string, p: nat, r: string, find: string, replacement: string)
    requires find != "" && t != "" && !(find <= t)
    requires p == FirstMatch(t[1..], find) && r == ReplaceAll(t[1..], find, replacement)
    ensures FirstMatch(t, find) == p + 1 && ReplaceAll(t, find, replacement) == [t[0]] + r
  {
  }

  lemma ReplacedLater(t: string, r: string, p: nat, find: string, replacement: string)
    requires find != "" && p < |t| && (p + 1 < |t| ==> p + 1 + |find| <= |t|)
    requires ReplacedAt(t[1..], r, p, find, replacement)
    ensures ReplacedAt(t, [t[0]] + r, p + 1, find, replacement)
  {
    if p < |t| - 1 {
      assert t[1..][p + |find|..] == t[p + 1 + |find|..];
      PrefixShift(t, p + 1, replacement + ReplaceAll(t[p + 1 + |find|..], find, replacement));
    } else {
      Joins(t, 1);
    }
  }

  lemma EmptyPrefix(t: string, rest: string)
    ensures t[..0] + rest == rest
  {
  }

  lemma PrefixShift(t: string, p: nat, rest: string)
    requires 0 < p <= |t|
    ensures t[..p] + rest == [t[0]] + (t[1..][..p - 1] + rest)
  {
    assert t[..p] == [t[0]] + t[1..][..p - 1];
  }

  /** The specification: literals and comments verbatim, code replaced. */
  function Assemble(regions: seq<Region>, find: string, replacement: string): string
    requires find != ""
  {
    if regions == [] then ""
    else
      (if regions[0].Code? then ReplaceAll(regions[0].text, find, replacement) else regions[0].text)
      + Assemble(regions[1..], find, replacement)
  }

  /** What the one-pass machine computes, a whole literal or comment at a time. */
  function Scan(s: string, find: string, replacement: string): string
    requires find != ""
    decreases |s|
  {
    if s == "" then "" else Written(s, find, replacement) + Scan(s[Advance(s, find)..], find, replacement)
  }

  /** How far one step of the machine goes, and what it writes. */
  function Advance(s: string, find: string): (n: nat)
    requires find != "" && s != ""
    ensures 0 < n <= |s|
  {
    if Opens(s) then RegionLength(s) else if find <= s then |find| else 1
  }

  function Written(s: string, find: string, replacement: string): string
    requires s != ""
  {
    if Opens(s) then s[..RegionLength(s)] else if find <= s then replacement else [s[0]]
  }

  /** What remains to be written in the given mode. */
  function Rest(mode: Mode, s: string, find: string, replacement: string): string
    requires find != ""
  {
    var n := BodyLength(mode, s);
    s[..n] + Scan(s[n..], find, replacement)
  }

  /** A text cut at position `i` and again `k` characters on. */
  lemma Slices(s: string, i: nat, k: nat)
    requires i + k <= |s|
    ensures s[i..][..k] == s[i..i + k] && s[i..][k..] == s[i + k..]
  {
  }

  lemma PrefixSlices(s: string, k: nat, n: nat)
    requires k <= n <= |s|
    ensures s[..n] == s[..k] + s[k..][..n - k]
    ensures s[n..] == s[k..][n - k..]
  {
  }

  lemma SliceOfPrefix(s: string, k: nat, n: nat)
    requires k <= n <= |s|
    ensures s[..n][k..] == s[k..][..n - k]
  {
  }

  lemma Joins(s: string, n: nat)
    requires n <= |s|
    ensures s == s[..n] + s[n..]
  {
  }

  /** `rest` names what remains to be written at each position of a source. */
  ghost predicate Follows(rest: (Mode, nat) -> string, source: string, find: string, replacement: string)
    requires find != ""
  {
    forall mode: Mode, i: nat {:trigger Rest(mode, source[i..], find, replacement)} ::
      i <= |source| ==> rest(mode, i) == Rest(mode, source[i..], find, replacement)
  }

  lemma OpenerThenRest(s: string, find: string, replacement: string)
    requires find != "" && Opens(s)
    ensures Scan(s, find, replacement) ==
            s[..OpenerLength(s)] + Rest(OpenedMode(s), s[OpenerLength(s)..], find, replacement)
  {
    var k, n := OpenerLength(s), RegionLength(s);
    PrefixSlices(s, k, n);
    Reassociate(s[..k], s[k..][..n - k], Scan(s[n..], find, replacement));
  }

  /** Copying `k` characters and changing mode is right when the body of the old mode is those
      characters and then the body of the new mode. */
  lemma CopyStep(out: string, source: string, i: nat, mode: Mode, k: nat, mode': Mode,
                 find: string, replacement: string, rest: (Mode, nat) -> string)
    requires find != "" && Follows(rest, source, find, replacement)
    requires i + k <= |source|
    requires BodyLength(mode, source[i..]) == k + BodyLength(mode', source[i + k..])
    ensures out + source[i..i + k] + rest(mode', i + k)
            == out + rest(mode, i)
  {
    Slices(source, i, k);
    RestStep(mode, source[i..], k, mode', find, replacement);
    Reassociate(out, source[i..i + k], Rest(mode', source[i + k..], find, replacement));
  }

  lemma RestStep(mode: Mode, s: string, k: nat, mode': Mode, find: string, replacement: string)
    requires find != "" && k <= |s|
    requires BodyLength(mode, s) == k + BodyLength(mode', s[k..])
    ensures Rest(mode, s, find, replacement) == s[..k] + Rest(mode', s[k..], find, replacement)
  {
    var n := BodyLength(mode, s);
    PrefixSlices(s, k, n);
    Reassociate(s[..k], s[k..][..n - k], Scan(s[n..], find, replacement));
  }

  lemma Reassociate(a: string, b: string, c: string)
    ensures a + (b + c) == (a + b) + c
  {
  }

  // ---------------------------------------------------------------------
  // The machine
  // ---------------------------------------------------------------------

  /** The test for the start of a literal or comment, made before the substitution is tried. */
  method DetectOpening(source: string, i: nat) returns (st: Mode, k: nat)
    requires i < |source|
    ensures st == OpenedMode(source[i..]) && k == OpenerLength(source[i..])
  {
    var b := source[i];
    ghost var s := source[i..];
    assert s[1..] == source[i + 1..];
    if b == 'r' && i + 1 < |source| && (source[i + 1] == '"' || source[i + 1] == '#') {
      var j := i + 1;
      var hashes := 0;
      while j < |source| && source[j] == '#'
        invariant i + 1 <= j <= |source| && hashes == j - (i + 1)
        invariant Hashes(source[i + 1..]) == hashes + Hashes(source[j..])
      {
        hashes := hashes + 1;
        j := j + 1;
      }
      if j < |source| && source[j] == '"' {
        return Raw(hashes), j + 1 - i;
      }
    }
    if b == '"' { return InString, 1; }
    if b == '\'' { return InChar, 1; }
    if b == '/' && i + 1 < |source| {
      if source[i + 1] == '/' { return LineComment, 2; }
      if source[i + 1] == '*' { return BlockComment(1), 2; }
    }
    return Normal, 0;
  }

  /** One round of the `Normal` state. */
  method StepNormal(source: string, i: nat, find: string, replacement: string,
                    out: string, ghost rest: (Mode, nat) -> string)
    returns (i': nat, st: Mode, out': string)
    requires find != "" && Follows(rest, source, find, replacement)
    requires i < |source|
    ensures i < i' <= |source|
    ensures out' + rest(st, i') == out + rest(Normal, i)
  {
    var k;
    st, k := DetectOpening(source, i);
    if st != Normal {
      OpenStep(out, source, i, find, replacement, rest);
      return i + k, st, out + source[i..i + k];
    }
    i', out' := StepCode(source, i, find, replacement, out, rest);
  }

  /** One round of the `Normal` state where no literal or comment starts. */
  method StepCode(source: string, i: nat, find: string, replacement: string,
                    out: string, ghost rest: (Mode, nat) -> string)
    returns (i': nat, out': string)
    requires find != "" && Follows(rest, source, find, replacement)
    requires i < |source| && !Opens(source[i..])
    ensures i < i' <= |source|
    ensures out' + rest(Normal, i') == out + rest(Normal, i)
  {
    if find <= source[i..] {
      MatchStep(out, source, i, find, replacement, rest);
      return i + |find|, out + replacement;
    }
    PlainStep(out, source, i, find, replacement, rest);
    return i + 1, out + [source[i]];
  }

  /** Replacing is right where no region opens and the text matches. */
  lemma MatchStep(out: string, source: string, i: nat, find: string, replacement: string, rest: (Mode, nat) -> string)
    requires find != "" && Follows(rest, source, find, replacement)
    requires i < |source| && !Opens(source[i..]) && find <= source[i..]
    ensures out + replacement + rest(Normal, i + |find|)
            == out + rest(Normal, i)
  {
    var s := source[i..];
    Slices(source, i, |find|);
    RestInCode(s, find, replacement);
    RestInCode(s[|find|..], find, replacement);
    Reassociate(out, replacement, Scan(s[|find|..], find, replacement));
  }

  /** Copying one character is right where no region opens and nothing matches. */
  lemma PlainStep(out: string, source: string, i: nat, find: string, replacement: string, rest: (Mode, nat) -> string)
    requires find != "" && Follows(rest, source, find, replacement)
    requires i < |source| && !Opens(source[i..]) && !(find <= source[i..])
    ensures out + [source[i]] + rest(Normal, i + 1)
            == out + rest(Normal, i)
  {
    var s := source[i..];
    Slices(source, i, 1);
    RestInCode(s, find, replacement);
    RestInCode(s[1..], find, replacement);
    Reassociate(out, [source[i]], Scan(s[1..], find, replacement));
  }

  lemma RestInCode(s: string, find: string, replacement: string)
    requires find != ""
    ensures Rest(Normal, s, find, replacement) == Scan(s, find, replacement)
  {
  }

  method ReplaceOutsideStrings(source: string, find: string, replacement: string) returns (out: string)
    ensures find == "" ==> out == source
    ensures find != "" ==> out == Scan(source, find, replacement)
  {
    if find == "" { return source; }
    ghost var rest := (mode: Mode, i: nat) => if i <= |source| then Rest(mode, source[i..], find, replacement) else "";
    out := RunMachine(source, find, replacement, rest);
    RestAtStart(source, find, replacement, rest);
  }

  lemma RestAtStart(source: string, find: string, replacement: string, rest: (Mode, nat) -> string)
    requires find != "" && Follows(rest, source, find, replacement)
    ensures rest(Normal, 0) == Scan(source, find, replacement)
  {
    assert source[0..] == source;
    RestInCode(source, find, replacement);
    assert rest(Normal, 0) == Rest(Normal, source[0..], find, replacement);
  }

  lemma RestAtEnd(source: string, find: string, replacement: string, rest: (Mode, nat) -> string, mode: Mode)
    requires find != "" && Follows(rest, source, find, replacement)
    ensures rest(mode, |source|) == ""
  {
    assert rest(mode, |source|) == Rest(mode, source[|source|..], find, replacement);
  }

  /** The loop of the machine. */
  method RunMachine(source: string, find: string, replacement: string, ghost rest: (Mode, nat) -> string)
    returns (out: string)
    requires find != "" && Follows(rest, source, find, replacement)
    ensures out == rest(Normal, 0)
  {
    out := "";
    var i := 0;
    var st := Normal;
    while i < |source|
      invariant i <= |source|
      invariant out + rest(st, i) == rest(Normal, 0)
      decreases |source| - i
    {
      match st {
        case Normal =>
          i, st, out := StepNormal(source, i, find, replacement, out, rest);
        case InString =>
          i, st, out := StepQuoted(source, i, st, find, replacement, out, rest);
        case InChar =>
          i, st, out := StepQuoted(source, i, st, find, replacement, out, rest);
        case Raw(hashes) =>
          i, st, out := StepRaw(source, i, hashes, find, replacement, out, rest);
        case LineComment =>
          i, st, out := StepLineComment(source, i, find, replacement, out, rest);
        case BlockComment(depth) =>
          i, st, out := StepBlockComment(source, i, depth, find, replacement, out, rest);
      }
    }
    RestAtEnd(source, find, replacement, rest, st);
  }

  function Quote(mode: Mode): char
    requires mode.InString? || mode.InChar?
  {
    if mode.InString? then '"' else '\''
  }

  /** One round of the `String` and `Char` states, which differ in their quote only. */
  method StepQuoted(source: string, i: nat, mode: Mode, find: string, replacement: string,
                    out: string, ghost rest: (Mode, nat) -> string)
    returns (i': nat, st: Mode, out': string)
    requires find != "" && Follows(rest, source, find, replacement)
    requires i < |source| && (mode.InString? || mode.InChar?)
    ensures i < i' <= |source|
    ensures out' + rest(st, i') == out + rest(mode, i)
  {
    var b := source[i];
    ghost var s := source[i..];
    assert s[1..] == source[i + 1..];
    out', i', st := out + [b], i + 1, mode;
    if b == '\\' && i' < |source| {
      out', i' := out' + [source[i']], i' + 1;
      assert s[2..] == source[i'..];
      assert source[i..i + 2] == [b] + [source[i + 1]];
      assert out' == out + source[i..i + 2];
      CopyStep(out, source, i, mode, 2, mode, find, replacement, rest);
    } else {
      if b == Quote(mode) { st := Normal; }
      assert out' == out + source[i..i + 1];
      assert BodyLength(Normal, source[i + 1..]) == 0;
      CopyStep(out, source, i, mode, 1, st, find, replacement, rest);
    }
  }

  /** The test for the end of a raw string: enough hashes after a quote. */
  method DetectRawCloser(source: string, i: nat, hashes: nat) returns (ok: bool)
    requires i < |source| && source[i] == '"'
    ensures ok == ClosesRaw(source[i..], hashes)
  {
    ok := true;
    Slices(source, i, 1);
    for k := 1 to hashes + 1
      invariant ok ==> i + k <= |source|
      invariant ok ==> forall j :: i < j < i + k ==> source[j] == '#'
      invariant !ok ==> Hashes(source[i + 1..]) < hashes
    {
      if i + k >= |source| || source[i + k] != '#' {
        ok := false;
        HashesStop(source[i + 1..], k - 1);
        break;
      }
    }
    if ok { HashesRun(source[i + 1..], hashes); }
  }

  /** One round of the `Raw` state. */
  method StepRaw(source: string, i: nat, hashes: nat, find: string, replacement: string,
                    out: string, ghost rest: (Mode, nat) -> string)
    returns (i': nat, st: Mode, out': string)
    requires find != "" && Follows(rest, source, find, replacement)
    requires i < |source|
    ensures i < i' <= |source|
    ensures out' + rest(st, i') == out + rest(Raw(hashes), i)
  {
    var ok := false;
    if source[i] == '"' { ok := DetectRawCloser(source, i, hashes); }
    RawBody(source, i, hashes);
    if ok {
      CopyStep(out, source, i, Raw(hashes), 1 + hashes, Normal, find, replacement, rest);
      return i + hashes + 1, Normal, out + source[i..i + hashes + 1];
    }
    assert source[i..i + 1] == [source[i]];
    CopyStep(out, source, i, Raw(hashes), 1, Raw(hashes), find, replacement, rest);
    return i + 1, Raw(hashes), out + [source[i]];
  }

  lemma RawBody(source: string, i: nat, hashes: nat)
    requires i < |source|
    ensures if ClosesRaw(source[i..], hashes)
            then i + 1 + hashes <= |source| && BodyLength(Raw(hashes), source[i..]) == 1 + hashes
                 && BodyLength(Normal, source[i + 1 + hashes..]) == 0
            else BodyLength(Raw(hashes), source[i..]) == 1 + BodyLength(Raw(hashes), source[i + 1..])
  {
    Slices(source, i, 1);
  }

  lemma {:induction false} HashesStop(s: string, k: nat)
    requires k < |s| ==> s[k] != '#'
    ensures Hashes(s) <= k
  {
  }

  lemma {:induction false} HashesRun(s: string, k: nat)
    requires k <= |s| && forall j :: 0 <= j < k ==> s[j] == '#'
    ensures Hashes(s) >= k
  {
  }

  /** One round of the `LineComment` state. */
  method StepLineComment(source: string, i: nat, find: string, replacement: string,
                    out: string, ghost rest: (Mode, nat) -> string)
    returns (i': nat, st: Mode, out': string)
    requires find != "" && Follows(rest, source, find, replacement)
    requires i < |source|
    ensures i < i' <= |source|
    ensures out' + rest(st, i') == out + rest(LineComment, i)
  {
    var b := source[i];
    ghost var s := source[i..];
    assert s[1..] == source[i + 1..];
    out', i', st := out + [b], i + 1, LineComment;
    if b == '\n' { st := Normal; }
    assert out' == out + source[i..i + 1];
    assert BodyLength(Normal, source[i + 1..]) == 0;
    CopyStep(out, source, i, LineComment, 1, st, find, replacement, rest);
  }

  /** One round of the `BlockComment` state; comments nest. */
  method StepBlockComment(source: string, i: nat, depth: nat, find: string, replacement: string,
                    out: string, ghost rest: (Mode, nat) -> string)
    returns (i': nat, st: Mode, out': string)
    requires find != "" && Follows(rest, source, find, replacement)
    requires i < |source|
    ensures i < i' <= |source|
    ensures out' + rest(st, i') == out + rest(BlockComment(depth), i)
  {
    ghost var s := source[i..];
    assert s[1..] == source[i + 1..];
    if i + 1 < |source| && source[i] == '*' && source[i + 1] == '/' {
      st := if depth <= 1 then Normal else BlockComment(depth - 1);
      assert s[2..] == source[i + 2..];
      assert source[i..i + 2] == "*/";
      CopyStep(out, source, i, BlockComment(depth), 2, st, find, replacement, rest);
      return i + 2, st, out + "*/";
    }
    if i + 1 < |source| && source[i] == '/' && source[i + 1] == '*' {
      assert s[2..] == source[i + 2..];
      assert source[i..i + 2] == "/*";
      CopyStep(out, source, i, BlockComment(depth), 2, BlockComment(depth + 1), find, replacement, rest);
      return i + 2, BlockComment(depth + 1), out + "/*";
    }
    assert source[i..i + 1] == [source[i]];
    CopyStep(out, source, i, BlockComment(depth), 1, BlockComment(depth), find, replacement, rest);
    return i + 1, BlockComment(depth), out + [source[i]];
  }

  /** Opening a region is right. */
  lemma OpenStep(out: string, source: string, i: nat, find: string, replacement: string, rest: (Mode, nat) -> string)
    requires find != "" && Follows(rest, source, find, replacement)
    requires i < |source| && Opens(source[i..])
    ensures var k := OpenerLength(source[i..]);
            out + source[i..i + k] + rest(OpenedMode(source[i..]), i + k) == out + rest(Normal, i)
  {
    var k, mode := OpenerLength(source[i..]), OpenedMode(source[i..]);
    Opening(source, i, k, mode, find, replacement, rest);
    Reassociate(out, source[i..i + k], rest(mode, i + k));
  }

  lemma Opening(source: string, i: nat, k: nat, mode: Mode, find: string, replacement: string,
                rest: (Mode, nat) -> string)
    requires find != "" && Follows(rest, source, find, replacement)
    requires i < |source| && Opens(source[i..]) && k == OpenerLength(source[i..]) && mode == OpenedMode(source[i..])
    ensures rest(Normal, i) == source[i..i + k] + rest(mode, i + k)
  {
    var s := source[i..];
    OpenerThenRest(s, find, replacement);
    Slices(source, i, k);
    RestInCode(s, find, replacement);
    assert rest(mode, i + k) == Rest(mode, source[i + k..], find, replacement);
  }

  // ---------------------------------------------------------------------
  // The machine and the specification
  // ---------------------------------------------------------------------

  /** A text some continuation of which opens a region at its first character. */
  predicate MayOpen(w: string) {
    w != ""
    && (w[0] == '"' || w[0] == '\''
        || (w[0] == '/' && (|w| == 1 || w[1] == '/' || w[1] == '*'))
        || (w[0] == 'r' && (1 + Hashes(w[1..]) == |w| || w[1 + Hashes(w[1..])] == '"')))
  }

  /** A region could open inside a match, past its first character. */
  predicate OpensInside(find: string) {
    exists k :: 0 < k < |find| && MayOpen(find[k..])
  }

  lemma {:induction false} HashesOfPrefix(w: string, s: string)
    requires w <= s
    ensures Hashes(w) == if Hashes(s) < |w| then Hashes(s) else |w|
  {
    if w != "" && w[0] == '#' {
      HashesOfPrefix(w[1..], s[1..]);
    }
  }

  /** Only what may open can turn out to open. */
  lemma OpeningShows(w: string, s: string)
    requires w != "" && w <= s && Opens(s)
    ensures MayOpen(w)
  {
    HashesOfPrefix(w[1..], s[1..]);
  }

  lemma {:induction false} MatchStaysInCode(s: string, find: string)
    requires find != "" && find <= s && !Opens(s) && !OpensInside(find)
    ensures CodeLength(s) == |find| + CodeLength(s[|find|..])
  {
    forall j | 0 <= j < |find| ensures !Opens(s[j..]) {
      if j == 0 {
        assert s[j..] == s;
      } else if Opens(s[j..]) {
        OpeningShows(find[j..], s[j..]);
      }
    }
    CodeStopsAtOpening(s, |find|);
  }

  /** `scan` and `replace` name what the machine and the specification make of a text. */
  ghost predicate Names(scan: string -> string, replace: string -> string, find: string, replacement: string)
    requires find != ""
  {
    && (forall s: string {:trigger Scan(s, find, replacement)} :: scan(s) == Scan(s, find, replacement))
    && (forall s: string {:trigger ReplaceAll(s, find, replacement)} :: replace(s) == ReplaceAll(s, find, replacement))
  }

  /** Code up to position `c` is replaced, and the machine goes on from there. */
  predicate CodeReplaced(s: string, c: nat, scan: string -> string, replace: string -> string)
    requires c <= |s|
  {
    scan(s) == replace(s[..c]) + scan(s[c..])
  }

  /** One step through code, on both sides. */
  lemma CodeAfter(s: string, c: nat, k: nat, find: string, replacement: string,
                  scan: string -> string, replace: string -> string)
    requires find != "" && Names(scan, replace, find, replacement)
    requires s != "" && !Opens(s) && k + c <= |s|
    requires if find <= s then k == |find| else k == 1
    requires CodeReplaced(s[k..], c, scan, replace)
    ensures CodeReplaced(s, k + c, scan, replace)
  {
    var written := if find <= s then replacement else [s[0]];
    SliceOfPrefix(s, k, k + c);
    Slices(s, k, c);
    ScanAfter(s, k, find, replacement, scan, replace);
    assert find <= s[..k + c] <==> find <= s;
    ReplaceAfter(s[..k + c], k, find, replacement, scan, replace);
    Reassociate(written, replace(s[k..][..c]), scan(s[k + c..]));
  }

  lemma ScanAfter(s: string, k: nat, find: string, replacement: string,
                  scan: string -> string, replace: string -> string)
    requires find != "" && Names(scan, replace, find, replacement) && s != "" && !Opens(s)
    requires if find <= s then k == |find| else k == 1
    ensures scan(s) == (if find <= s then replacement else [s[0]]) + scan(s[k..])
  {
    assert scan(s) == Scan(s, find, replacement) && scan(s[k..]) == Scan(s[k..], find, replacement);
  }

  lemma ReplaceAfter(t: string, k: nat, find: string, replacement: string,
                     scan: string -> string, replace: string -> string)
    requires find != "" && Names(scan, replace, find, replacement) && t != ""
    requires if find <= t then k == |find| else k == 1
    ensures replace(t) == (if find <= t then replacement else [t[0]]) + replace(t[k..])
  {
    assert replace(t) == ReplaceAll(t, find, replacement) && replace(t[k..]) == ReplaceAll(t[k..], find, replacement);
  }

  lemma CodeGoesOn(s: string, find: string, k: nat)
    requires find != "" && s != "" && !Opens(s) && !OpensInside(find)
    requires if find <= s then k == |find| else k == 1
    ensures CodeLength(s) == k + CodeLength(s[k..])
  {
    if find <= s { MatchStaysInCode(s, find); }
  }

  lemma NoCodeLeft(s: string, find: string, replacement: string, scan: string -> string, replace: string -> string)
    requires find != "" && Names(scan, replace, find, replacement)
    ensures CodeReplaced(s, 0, scan, replace)
  {
    assert ReplaceAll(s[..0], find, replacement) == "";
    assert s[0..] == s;
  }

  lemma {:induction false} CodeIsReplaced(s: string, c: nat, find: string, replacement: string,
                                          scan: string -> string, replace: string -> string)
    requires find != "" && !OpensInside(find) && c == CodeLength(s) && Names(scan, replace, find, replacement)
    ensures CodeReplaced(s, c, scan, replace)
    decreases |s|
  {
    if c == 0 {
      NoCodeLeft(s, find, replacement, scan, replace);
    } else {
      var k := if find <= s then |find| else 1;
      CodeGoesOn(s, find, k);
      CodeIsReplaced(s[k..], c - k, find, replacement, scan, replace);
      CodeAfter(s, c - k, k, find, replacement, scan, replace);
    }
  }

  /** Inside code the machine replaces the leftmost matches. */
  lemma ScanCode(s: string, find: string, replacement: string)
    requires find != "" && !OpensInside(find)
    ensures var c := CodeLength(s);
            Scan(s, find, replacement) == ReplaceAll(s[..c], find, replacement) + Scan(s[c..], find, replacement)
  {
    var scan := (t: string) => Scan(t, find, replacement);
    var replace := (t: string) => ReplaceAll(t, find, replacement);
    CodeIsReplaced(s, CodeLength(s), find, replacement, scan, replace);
  }

  lemma {:induction false} ScanRefines(s: string, find: string, replacement: string)
    requires find != "" && !OpensInside(find)
    ensures Scan(s, find, replacement) == Assemble(Regions(s), find, replacement)
    decreases |s|
  {
    if s != "" {
      if Opens(s) {
        ScanRefines(s[RegionLength(s)..], find, replacement);
      } else {
        ScanCode(s, find, replacement);
        ScanRefines(s[CodeLength(s)..], find, replacement);
      }
    }
  }

  // A substitution that replaces a text by itself, or one that always meets a region first,
  // changes nothing on either side.

  lemma {:induction false} ScanKeeps(s: string, find: string, replacement: string)
    requires find != "" && (find == replacement || Opens(find))
    ensures Scan(s, find, replacement) == s
    decreases |s|
  {
    if s != "" {
      if Opens(find) && find <= s { OpeningStays(find, s); }
      var n := if Opens(s) then RegionLength(s) else if find <= s then |find| else 1;
      ScanKeeps(s[n..], find, replacement);
      Joins(s, n);
      assert !Opens(s) ==> s[..n] == if find <= s then find else [s[0]];
    }
  }

  /** A text that opens a region opens it whatever follows. */
  lemma OpeningStays(w: string, s: string)
    requires w <= s && Opens(w)
    ensures Opens(s) && OpenedMode(s) == OpenedMode(w)
  {
    HashesOfPrefix(w[1..], s[1..]);
  }

  lemma {:induction false} ReplaceBySame(t: string, find: string)
    requires find != ""
    ensures ReplaceAll(t, find, find) == t
    decreases |t|
  {
    if t == "" {
    } else if find <= t {
      ReplaceBySame(t[|find|..], find);
      Joins(t, |find|);
    } else {
      ReplaceBySame(t[1..], find);
      Joins(t, 1);
    }
  }

  lemma NoMatchInCode(s: string, find: string, replacement: string)
    requires Opens(find)
    ensures var t := s[..CodeLength(s)]; ReplaceAll(t, find, replacement) == t
  {
    var t := s[..CodeLength(s)];
    var p := FirstMatch(t, find);
    if p < |t| {
      CodeOpensNothing(s, p);
      assert t[p..] <= s[p..];
      OpeningStays(find, s[p..]);
    }
    ReplaceAllIsLeftmost(t, find, replacement);
  }

  lemma AssembleStep(s: string, find: string, replacement: string)
    requires find != "" && s != ""
    ensures var n := if Opens(s) then RegionLength(s) else CodeLength(s);
            Assemble(Regions(s), find, replacement) ==
            (if Opens(s) then s[..n] else ReplaceAll(s[..n], find, replacement))
            + Assemble(Regions(s[n..]), find, replacement)
  {
  }

  lemma {:induction false} AssembleKeeps(s: string, find: string, replacement: string)
    requires find != "" && (find == replacement || Opens(find))
    ensures Assemble(Regions(s), find, replacement) == s
    decreases |s|
  {
    if s != "" {
      var n := if Opens(s) then RegionLength(s) else CodeLength(s);
      AssembleStep(s, find, replacement);
      AssembleKeeps(s[n..], find, replacement);
      if find == replacement {
        ReplaceBySame(s[..n], find);
      } else if !Opens(s) {
        NoMatchInCode(s, find, replacement);
      }
      Joins(s, n);
    }
  }

  /** The character that turns a text that may open a region into one that does. */
  function Completion(w: string): string
    requires MayOpen(w)
  {
    if Opens(w) then "" else if w[0] == '/' then "/" else "\""
  }

  lemma CompletionOpens(w: string)
    requires MayOpen(w)
    ensures Opens(w + Completion(w)) && |Completion(w)| <= 1
  {
    var s := w + Completion(w);
    if !Opens(w) && w[0] == 'r' {
      assert s[1..] == w[1..] + "\"";
      HashesThenQuote(w[1..]);
    }
    assert Opens(w) ==> s == w;
  }

  lemma {:induction false} HashesThenQuote(w: string)
    requires Hashes(w) == |w|
    ensures Hashes(w + "\"") == |w|
  {
    if w != "" {
      HashesThenQuote(w[1..]);
      assert (w + "\"")[1..] == w[1..] + "\"";
    } else {
      assert w + "\"" == "\"";
    }
  }

  /** The specification changes nothing where the first piece and the rest are kept. */
  lemma KeptInParts(s: string, find: string, replacement: string)
    requires find != "" && s != ""
    requires var n := if Opens(s) then RegionLength(s) else CodeLength(s);
             (Opens(s) || n < |find|) && Assemble(Regions(s[n..]), find, replacement) == s[n..]
    ensures Assemble(Regions(s), find, replacement) == s
  {
    var n := if Opens(s) then RegionLength(s) else CodeLength(s);
    AssembleStep(s, find, replacement);
    if !Opens(s) { NothingFits(s[..n], find, replacement); }
    Joins(s, n);
  }

  /** A specification run over a text none of whose code is as long as `find` changes nothing. */
  lemma {:induction false} ShortCodeKept(s: string, find: string, replacement: string)
    requires find != "" && |s| < |find|
    ensures Assemble(Regions(s), find, replacement) == s
    decreases |s|
  {
    if s != "" {
      var n := if Opens(s) then RegionLength(s) else CodeLength(s);
      ShortCodeKept(s[n..], find, replacement);
      KeptInParts(s, find, replacement);
    }
  }

  lemma NothingFits(t: string, find: string, replacement: string)
    requires |t| < |find|
    ensures ReplaceAll(t, find, replacement) == t
  {
    ReplaceAllIsLeftmost(t, find, replacement);
  }

  /** The text on which the machine and the specification part ways: it ends the match with
      the region the match steps over. */
  lemma MachineStepsOverOpening(find: string, replacement: string) returns (s: string)
    requires OpensInside(find) && !Opens(find) && find != replacement
    ensures Scan(s, find, replacement) != Assemble(Regions(s), find, replacement)
  {
    var k :| 0 < k < |find| && MayOpen(find[k..]);
    var tail := Completion(find[k..]);
    s := find + tail;
    CompletionOpens(find[k..]);
    assert s[k..] == find[k..] + tail;
    StillCode(find, k, tail);
    SpecificationKeeps(s, find, replacement, k);
    MachineReplaces(find, replacement, tail);
  }

  /** The completion does not open a region at the first character. */
  lemma StillCode(find: string, k: nat, tail: string)
    requires 0 < k < |find| && MayOpen(find[k..]) && !Opens(find) && |tail| <= 1
    ensures !Opens(find + tail)
  {
    var s := find + tail;
    var h := Hashes(find[1..]);
    assert find[k..][0] == find[k];
    if find[0] == 'r' {
      assert find[1..][k - 1] == find[k];
      assert h <= k - 1;
      HashesOfPrefix(find[1..], s[1..]);
    }
  }

  lemma SpecificationKeeps(s: string, find: string, replacement: string, k: nat)
    requires find != "" && 0 < k < |find| && |s| <= |find| + 1 && k < |s|
    requires !Opens(s) && Opens(s[k..])
    ensures Assemble(Regions(s), find, replacement) == s
  {
    var c := CodeLength(s);
    if c > k { CodeOpensNothing(s, k); }
    assert c <= k;
    CodeEndsAtOpening(s);
    ShortAfterRegion(s[c..], find, replacement);
    KeptInParts(s, find, replacement);
  }

  lemma ShortAfterRegion(s: string, find: string, replacement: string)
    requires find != "" && |s| <= |find| && (s == "" || Opens(s))
    ensures Assemble(Regions(s), find, replacement) == s
  {
    if s != "" {
      ShortCodeKept(s[RegionLength(s)..], find, replacement);
      KeptInParts(s, find, replacement);
    }
  }

  lemma MachineReplaces(find: string, replacement: string, tail: string)
    requires |find| > 1 && |tail| <= 1 && !Opens(find + tail) && find != replacement
    ensures Scan(find + tail, find, replacement) != find + tail
  {
    var s := find + tail;
    assert s[|find|..] == tail;
    ShortTextKept(tail, find, replacement);
    PrefixesDiffer(replacement, find, tail);
  }

  lemma PrefixesDiffer(a: string, b: string, tail: string)
    requires a != b
    ensures a + tail != b + tail
  {
    assert (a + tail)[..|a|] == a && (b + tail)[..|b|] == b;
  }

  lemma ShortTextKept(tail: string, find: string, replacement: string)
    requires |find| > 1 && |tail| <= 1
    ensures Scan(tail, find, replacement) == tail
  {
    if tail != "" {
      var n := if Opens(tail) then RegionLength(tail) else 1;
      assert tail[n..] == "";
      assert tail[..1] == tail == [tail[0]];
    }
  }

  ghost predicate Refines(find: string, replacement: string)
    requires find != ""
  {
    forall s: string :: Scan(s, find, replacement) == Assemble(Regions(s), find, replacement)
  }

  /** The one-pass machine meets the region specification on every text exactly when no literal
      or comment can open strictly inside a match, apart from the two kinds of substitution
      that never change anything. */
  lemma RefinesExactlyWhen(find: string, replacement: string)
    requires find != ""
    ensures Refines(find, replacement) <==> (find == replacement || Opens(find) || !OpensInside(find))
  {
    if find == replacement || Opens(find) {
      forall s: string ensures Scan(s, find, replacement) == Assemble(Regions(s), find, replacement) {
        ScanKeeps(s, find, replacement);
        AssembleKeeps(s, find, replacement);
      }
    } else if !OpensInside(find) {
      forall s: string ensures Scan(s, find, replacement) == Assemble(Regions(s), find, replacement) {
        ScanRefines(s, find, replacement);
      }
    } else {
      var s := MachineStepsOverOpening(find, replacement);
    }
  }

  // ---------------------------------------------------------------------
  // A second run
  // ---------------------------------------------------------------------

  lemma {:induction false} QuotedKept(quote: char, s: string, u: string)
    requires QuotedLength(quote, s) < |s|
    ensures var n := QuotedLength(quote, s); QuotedLength(quote, s[..n] + u) == n
    decreases |s|
  {
    var n := QuotedLength(quote, s);
    var t := s[..n] + u;
    var k := if s[0] == '\\' && |s| > 1 then 2 else 1;
    if k == 2 || s[0] != quote {
      QuotedKept(quote, s[k..], u);
      assert t[k..] == s[k..][..n - k] + u;
    }
  }

  lemma {:induction false} RawKept(hashes: nat, s: string, u: string)
    requires BodyLength(Raw(hashes), s) < |s|
    ensures var n := BodyLength(Raw(hashes), s); BodyLength(Raw(hashes), s[..n] + u) == n
    decreases |s|
  {
    var n := BodyLength(Raw(hashes), s);
    var t := s[..n] + u;
    if ClosesRaw(s, hashes) {
      HashesRun(t[1..], hashes);
    } else {
      RawKept(hashes, s[1..], u);
      assert t[1..] == s[1..][..n - 1] + u;
      NoEarlierCloser(hashes, s, n, u);
    }
  }

  /** A closer seen after the cut would have been seen before it. */
  lemma NoEarlierCloser(hashes: nat, s: string, n: nat, u: string)
    requires n == BodyLength(Raw(hashes), s) < |s| && !ClosesRaw(s, hashes)
    ensures !ClosesRaw(s[..n] + u, hashes)
  {
    var t := s[..n] + u;
    RawEndsWithCloser(hashes, s);
    if Hashes(t[1..]) >= hashes && s[0] == '"' {
      forall j | 0 <= j < hashes ensures s[1..][j] == '#' {
        assert t[1..][j] == '#';
      }
      HashesRun(s[1..], hashes);
    }
  }

  /** A raw string that ends before the text does ends in its quote and its hashes. */
  lemma {:induction false} RawEndsWithCloser(hashes: nat, s: string)
    requires BodyLength(Raw(hashes), s) < |s|
    ensures var n := BodyLength(Raw(hashes), s);
            n >= 1 + hashes && ClosesRaw(s[n - 1 - hashes..], hashes)
    ensures forall k :: 0 <= k < BodyLength(Raw(hashes), s) - 1 - hashes ==> !ClosesRaw(s[k..], hashes)
    decreases |s|
  {
    var n := BodyLength(Raw(hashes), s);
    assert s[0..] == s;
    if !ClosesRaw(s, hashes) {
      RawEndsWithCloser(hashes, s[1..]);
      assert s[1..][n - 2 - hashes..] == s[n - 1 - hashes..];
      forall k | 0 <= k < n - 1 - hashes ensures !ClosesRaw(s[k..], hashes) {
        if k > 0 { assert s[1..][k - 1..] == s[k..]; }
      }
    }
  }

  lemma {:induction false} LineKept(s: string, u: string)
    requires BodyLength(LineComment, s) < |s|
    ensures var n := BodyLength(LineComment, s); BodyLength(LineComment, s[..n] + u) == n
    decreases |s|
  {
    if s[0] != '\n' {
      LineKept(s[1..], u);
      assert (s[..BodyLength(LineComment, s)] + u)[1..] == s[1..][..BodyLength(LineComment, s) - 1] + u;
    }
  }

  lemma {:induction false} BlockKept(depth: nat, s: string, u: string)
    requires BodyLength(BlockComment(depth), s) < |s|
    ensures var n := BodyLength(BlockComment(depth), s); BodyLength(BlockComment(depth), s[..n] + u) == n
    decreases |s|
  {
    var mode := BlockComment(depth);
    var n := BodyLength(mode, s);
    var t := s[..n] + u;
    if s[0] == '*' && |s| > 1 && s[1] == '/' {
      assert t[2..] == s[2..][..n - 2] + u;
      if depth > 1 { BlockKept(depth - 1, s[2..], u); }
    } else if s[0] == '/' && |s| > 1 && s[1] == '*' {
      assert t[2..] == s[2..][..n - 2] + u;
      BlockKept(depth + 1, s[2..], u);
    } else {
      assert t[1..] == s[1..][..n - 1] + u;
      BlockKept(depth, s[1..], u);
      BlockNeedsTwo(depth, s[1..]);
    }
  }

  /** A comment that ends before the text does has a two-character closer. */
  lemma {:induction false} BlockNeedsTwo(depth: nat, s: string)
    requires BodyLength(BlockComment(depth), s) < |s|
    ensures BodyLength(BlockComment(depth), s) >= 2
    decreases |s|
  {
    if |s| > 1 && !(s[0] == '*' && s[1] == '/') && !(s[0] == '/' && s[1] == '*') {
      BlockNeedsTwo(depth, s[1..]);
    }
  }

  lemma OpenerSuffices(s: string)
    requires Opens(s)
    ensures OpenedMode(s[..OpenerLength(s)]) == OpenedMode(s)
  {
    var w := s[..OpenerLength(s)];
    if s[0] == 'r' {
      assert w[1..] == s[1..][..|w| - 1];
      HashesOfPrefix(w[1..], s[1..]);
    }
  }

  lemma BodyKept(mode: Mode, s: string, u: string)
    requires BodyLength(mode, s) < |s|
    ensures var n := BodyLength(mode, s); BodyLength(mode, s[..n] + u) == n
  {
    match mode {
      case Normal =>
      case InString => QuotedKept('"', s, u);
      case InChar => QuotedKept('\'', s, u);
      case Raw(hashes) => RawKept(hashes, s, u);
      case LineComment => LineKept(s, u);
      case BlockComment(depth) => BlockKept(depth, s, u);
    }
  }

  /** A region that ends before the text does ends there whatever follows it. */
  lemma RegionKept(s: string, u: string)
    requires Opens(s) && RegionLength(s) < |s|
    ensures RegionLength(s[..RegionLength(s)] + u) == RegionLength(s)
  {
    var k, n := OpenerLength(s), RegionLength(s);
    var t := s[..n] + u;
    OpenerSuffices(s);
    OpeningStays(s[..k], t);
    BodyKept(OpenedMode(s), s[k..], u);
    assert t[k..] == s[k..][..n - k] + u;
  }

  /** A character no region opens with. */
  predicate IsInert(c: char) { c != 'r' && c != '"' && c != '\'' && c != '/' }

  predicate Inert(w: string) { forall k :: 0 <= k < |w| ==> IsInert(w[k]) }

  predicate StartAlike(find: string, replacement: string) {
    find != "" && replacement != "" && find[0] == replacement[0]
  }

  /** A substitution that leaves no new match and moves no region: its two texts start alike,
      part at the second character, and neither holds a region opener or its own first
      character again. */
  predicate Settles(find: string, replacement: string) {
    && StartAlike(find, replacement)
    && |find| >= 2 && |replacement| >= 2 && find[1] != replacement[1] && find[0] != '#'
    && Inert(find) && Inert(replacement)
    && find[0] !in find[1..] && find[0] !in replacement[1..]
  }

  /** One step through plain code. */
  lemma PlainScan(s: string, find: string, replacement: string)
    requires find != "" && s != "" && !Opens(s) && !(find <= s)
    ensures Scan(s, find, replacement) == [s[0]] + Scan(s[1..], find, replacement)
  {
  }

  lemma ScanKeepsFirst(s: string, find: string, replacement: string)
    requires StartAlike(find, replacement) && s != ""
    ensures Scan(s, find, replacement) != "" && Scan(s, find, replacement)[0] == s[0]
  {
    assert Written(s, find, replacement)[0] == s[0];
  }

  /** The same hashes, and the same character after them. */
  predicate SameHashes(s: string, u: string) {
    var h := Hashes(s);
    Hashes(u) == h && (h < |u| <==> h < |s|) && (h < |s| ==> u[h] == s[h])
  }

  lemma {:induction false} ScanKeepsHashes(s: string, find: string, replacement: string)
    requires StartAlike(find, replacement) && find[0] != '#'
    ensures SameHashes(s, Scan(s, find, replacement))
    decreases |s|
  {
    if s != "" {
      if s[0] == '#' {
        ScanKeepsHashes(s[1..], find, replacement);
        PlainScan(s, find, replacement);
        AfterHash(s, s[1..], Scan(s[1..], find, replacement));
      } else {
        ScanKeepsFirst(s, find, replacement);
      }
    }
  }

  lemma AfterHash(s: string, v: string, u: string)
    requires SameHashes(v, u) && s == ['#'] + v
    ensures SameHashes(s, ['#'] + u)
  {
    assert (['#'] + u)[1..] == u && s[1..] == v;
  }

  /** Copied code still opens nothing. */
  lemma StillNoOpening(s: string, find: string, replacement: string)
    requires StartAlike(find, replacement) && find[0] != '#' && s != "" && !Opens(s)
    ensures !Opens([s[0]] + Scan(s[1..], find, replacement))
  {
    var u := Scan(s[1..], find, replacement);
    var t := [s[0]] + u;
    assert t[1..] == u;
    ScanKeepsHashes(s[1..], find, replacement);
    if |s| > 1 { ScanKeepsFirst(s[1..], find, replacement); }
  }

  /** What a run writes can only start with the tail of a match if the text did. */
  lemma {:induction false} TailWasThere(w: string, s: string, find: string, replacement: string)
    requires StartAlike(find, replacement) && Inert(w) && find[0] !in w
    requires w <= Scan(s, find, replacement)
    ensures w <= s
    decreases |w|
  {
    if w != "" {
      ScanKeepsFirst(s, find, replacement);
      assert w[0] == s[0] && IsInert(w[0]) && w[0] != find[0];
      PlainScan(s, find, replacement);
      var u := Scan(s[1..], find, replacement);
      assert ([s[0]] + u)[1..] == u;
      TailWasThere(w[1..], s[1..], find, replacement);
    }
  }

  lemma StillNoMatch(s: string, find: string, replacement: string)
    requires Settles(find, replacement) && s != "" && !(find <= s)
    ensures !(find <= [s[0]] + Scan(s[1..], find, replacement))
  {
    var u := Scan(s[1..], find, replacement);
    var t := [s[0]] + u;
    if find <= t {
      assert find[1..] <= u by { assert t[1..] == u; }
      TailWasThere(find[1..], s[1..], find, replacement);
    }
  }

  /** Inert text without the first character of a match is plain code. */
  lemma {:induction false} InertKept(w: string, u: string, find: string, replacement: string)
    requires find != "" && Inert(w) && find[0] !in w
    ensures Scan(w + u, find, replacement) == w + Scan(u, find, replacement)
    decreases |w|
  {
    if w == "" {
      assert w + u == u;
    } else {
      InertKept(w[1..], u, find, replacement);
      InertStep(w, u, find, replacement);
    }
  }

  /** One inert character, where no match starts. */
  lemma InertStep(w: string, u: string, find: string, replacement: string)
    requires find != "" && w != "" && IsInert(w[0]) && !(find <= w + u)
    requires Scan(w[1..] + u, find, replacement) == w[1..] + Scan(u, find, replacement)
    ensures Scan(w + u, find, replacement) == w + Scan(u, find, replacement)
  {
    InertScan(w, u, find, replacement);
    Reassociate([w[0]], w[1..], Scan(u, find, replacement));
    assert w == [w[0]] + w[1..];
  }

  lemma InertScan(w: string, u: string, find: string, replacement: string)
    requires find != "" && w != "" && IsInert(w[0]) && !(find <= w + u)
    ensures Scan(w + u, find, replacement) == [w[0]] + Scan(w[1..] + u, find, replacement)
  {
    var t := w + u;
    assert t[0] == w[0] && t[1..] == w[1..] + u;
    PlainScan(t, find, replacement);
  }

  lemma ReplacementKept(u: string, find: string, replacement: string)
    requires Settles(find, replacement)
    ensures Scan(replacement + u, find, replacement) == replacement + Scan(u, find, replacement)
  {
    var t := replacement + u;
    assert t[1] == replacement[1];
    InertKept(replacement[1..], u, find, replacement);
    InertStep(replacement, u, find, replacement);
  }

  /** A second run of a settling substitution changes nothing. */
  lemma {:induction false} SecondRunChangesNothing(s: string, find: string, replacement: string)
    requires Settles(find, replacement)
    ensures var once := Scan(s, find, replacement); Scan(once, find, replacement) == once
    decreases |s|
  {
    if s != "" {
      if Opens(s) {
        var n := RegionLength(s);
        var u := Scan(s[n..], find, replacement);
        SecondRunChangesNothing(s[n..], find, replacement);
        RegionAgain(s, u, find, replacement);
      } else if find <= s {
        var u := Scan(s[|find|..], find, replacement);
        SecondRunChangesNothing(s[|find|..], find, replacement);
        ReplacementKept(u, find, replacement);
      } else {
        var u := Scan(s[1..], find, replacement);
        SecondRunChangesNothing(s[1..], find, replacement);
        StillNoOpening(s, find, replacement);
        StillNoMatch(s, find, replacement);
        assert ([s[0]] + u)[1..] == u;
      }
    }
  }

  lemma RegionAgain(s: string, u: string, find: string, replacement: string)
    requires Settles(find, replacement) && Opens(s)
    requires u == Scan(s[RegionLength(s)..], find, replacement) && Scan(u, find, replacement) == u
    ensures var t := s[..RegionLength(s)] + u; Scan(t, find, replacement) == t
  {
    var n := RegionLength(s);
    var t := s[..n] + u;
    if n < |s| {
      RegionKept(s, u);
    } else {
      assert t == s;
    }
    assert t[..n] == s[..n] && t[n..] == u;
  }

  lemma InertOpensNothing(find: string)
    requires Inert(find)
    ensures !OpensInside(find)
  {
    forall k | 0 < k < |find| ensures !MayOpen(find[k..]) {
      assert find[k..][0] == find[k];
    }
  }

  lemma InertRefines(find: string, replacement: string)
    requires find != "" && Inert(find)
    ensures Refines(find, replacement)
  {
    InertOpensNothing(find);
    RefinesExactlyWhen(find, replacement);
  }
}
