/** Literals and comments by their own texts: what each of them starts with, where it ends, and that
    the substitution copies exactly these. Nothing here follows the machine's states. */
module Openers {
  import opened Scanner
  import opened RegionEnds
  import opened Lifetimes

  /** The kinds of literals and comments. */
  datatype Form = LineForm | BlockForm | StringForm | CharForm | RawForm(hashes: nat)

  function HashText(n: nat): (s: string)
    ensures |s| == n && forall k :: 0 <= k < n ==> s[k] == '#'
  {
    if n == 0 then "" else "#" + HashText(n - 1)
  }

  /** What a literal or comment starts with. */
  function OpenerText(form: Form): string {
    match form
    case LineForm => "//"
    case BlockForm => "/*"
    case StringForm => "\""
    case CharForm => "'"
    case RawForm(n) => "r" + HashText(n) + "\""
  }

  /** The literal or comment is closed after `k` characters of its body: by a newline, by as many
      closers as there are openers, by a quote that is not escaped, or by a quote and the hashes of
      the opener. */
  predicate IsClosedAt(form: Form, body: string, k: nat)
    requires k <= |body|
  {
    match form
    case LineForm => k > 0 && body[k - 1] == '\n'
    case BlockForm => 1 + Net(body[..k]) == 0
    case StringForm => k > 0 && EndsQuoted(body, '"', k - 1)
    case CharForm => k > 0 && EndsQuoted(body, '\'', k - 1)
    case RawForm(n) => k > n && body[k - 1 - n] == '"' && forall j :: k - n <= j < k ==> body[j] == '#'
  }

  predicate StartsAs(form: Form, s: string) { OpenerText(form) <= s }

  /** A whole literal or comment, closed by its last character. */
  predicate IsWhole(form: Form, r: string) {
    StartsAs(form, r) &&
    var body := r[|OpenerText(form)|..];
    IsClosedAt(form, body, |body|) && forall k :: 0 <= k < |body| ==> !IsClosedAt(form, body, k)
  }

  /** A literal or comment that is never closed. */
  predicate IsUnclosed(form: Form, r: string) {
    StartsAs(form, r) &&
    var body := r[|OpenerText(form)|..];
    forall k :: 0 <= k <= |body| ==> !IsClosedAt(form, body, k)
  }

  /** No literal or comment starts here. */
  ghost predicate IsCode(s: string) { s != "" && forall form: Form :: !StartsAs(form, s) }

  // ---------------------------------------------------------------------
  // Openers
  // ---------------------------------------------------------------------

  function ModeOf(form: Form): Mode {
    match form
    case LineForm => LineComment
    case BlockForm => BlockComment(1)
    case StringForm => InString
    case CharForm => InChar
    case RawForm(n) => Raw(n)
  }

  lemma RawStarts(n: nat, s: string)
    ensures StartsAs(RawForm(n), s) <==> OpensRaw(s) && Hashes(s[1..]) == n
  {
    var opener := OpenerText(RawForm(n));
    assert |opener| == n + 2 && opener[0] == 'r' && opener[n + 1] == '"';
    assert forall k :: 0 < k <= n ==> opener[k] == '#';
    if StartsAs(RawForm(n), s) {
      assert s[0] == opener[0] && s[n + 1] == opener[n + 1];
      forall k | 0 <= k < n ensures s[1..][k] == '#' { assert s[k + 1] == opener[k + 1]; }
      HashesRun(s[1..], n);
      HashesStop(s[1..], n);
    }
  }

  /** The text says which literal or comment starts. */
  lemma OpenedAs(form: Form, s: string)
    requires StartsAs(form, s)
    ensures Opens(s) && OpenedMode(s) == ModeOf(form) && OpenerLength(s) == |OpenerText(form)|
  {
    match form
    case RawForm(n) => RawStarts(n, s); assert |OpenerText(form)| == n + 2;
    case LineForm => assert s[0] == '/' && s[1] == '/';
    case BlockForm => assert s[0] == '/' && s[1] == '*';
    case StringForm => assert s[0] == '"';
    case CharForm => assert s[0] == '\'';
  }

  lemma OpenedForm(s: string) returns (form: Form)
    requires Opens(s)
    ensures StartsAs(form, s)
  {
    match OpenedMode(s)
    case Raw(n) => form := RawForm(n); RawStarts(n, s);
    case LineComment => form := LineForm; assert s[..2] == "//";
    case BlockComment(_) => form := BlockForm; assert s[..2] == "/*";
    case InString => form := StringForm;
    case InChar => form := CharForm;
  }

  /** Something opens exactly where one of the openers stands. */
  lemma OpensExactlyWhen(s: string)
    ensures s != "" ==> (IsCode(s) <==> !Opens(s))
  {
    if Opens(s) { var form := OpenedForm(s); }
    if form: Form :| StartsAs(form, s) { OpenedAs(form, s); }
  }

  /** Openers in the sense of Rust are these, but a tick must start a character literal. */
  lemma RustOpensExactlyWhen(s: string)
    ensures RustOpens(s) <==> exists form: Form :: StartsAs(form, s) && (form == CharForm ==> OpensChar(s))
  {
    if RustOpens(s) {
      var form := OpenedForm(s);
      assert form == CharForm ==> s[0] == '\'';
    }
    if form: Form :| StartsAs(form, s) && (form == CharForm ==> OpensChar(s)) {
      OpenedAs(form, s);
      assert s[0] == '\'' ==> form == CharForm by { FirstOf(form, s); }
    }
  }

  lemma FirstOf(form: Form, s: string)
    requires StartsAs(form, s)
    ensures s[0] == '\'' ==> form == CharForm
  {
    if form.RawForm? { RawStarts(form.hashes, s); }
  }

  // ---------------------------------------------------------------------
  // Ends
  // ---------------------------------------------------------------------

  lemma RawClosesThere(n: nat, body: string, k: nat)
    requires k <= |body|
    ensures IsClosedAt(RawForm(n), body, k) <==> k > n && ClosesRaw(body[k - 1 - n..], n)
  {
    if k > n {
      var t := body[k - 1 - n..];
      assert forall j :: 0 <= j < |t| ==> t[j] == body[k - 1 - n + j];
      assert forall j :: 0 <= j < |t| - 1 ==> t[1..][j] == body[k - n + j];
      if IsClosedAt(RawForm(n), body, k) { HashesRun(t[1..], n); }
      if ClosesRaw(t, n) {
        forall j | k - n <= j < k ensures body[j] == '#' { assert t[1..][j - (k - n)] == '#'; }
      }
    }
  }

  lemma {:induction false} RawStops(n: nat, s: string, k: nat)
    requires k <= |s| && ClosesRaw(s[k..], n)
    ensures BodyLength(Raw(n), s) <= k + 1 + n
  {
    if k > 0 && !ClosesRaw(s, n) {
      assert s[1..][k - 1..] == s[k..];
      RawStops(n, s[1..], k - 1);
    } else {
      assert s[0..] == s;
    }
  }

  lemma RawEnds(n: nat, s: string)
    ensures var m := BodyLength(Raw(n), s);
            && (forall k :: 0 <= k < m ==> !IsClosedAt(RawForm(n), s, k))
            && (m < |s| ==> IsClosedAt(RawForm(n), s, m))
  {
    var m := BodyLength(Raw(n), s);
    forall k | 0 <= k < m ensures !IsClosedAt(RawForm(n), s, k) {
      RawClosesThere(n, s, k);
      if k > n && ClosesRaw(s[k - 1 - n..], n) { RawStops(n, s, k - 1 - n); }
    }
    if m < |s| {
      RawEndsWithCloser(n, s);
      RawClosesThere(n, s, m);
    }
  }

  /** A body ends where it is closed for the first time, or with the text. */
  lemma BodyEnds(form: Form, s: string)
    ensures var m := BodyLength(ModeOf(form), s);
            && (forall k :: 0 <= k < m ==> !IsClosedAt(form, s, k))
            && (m < |s| ==> IsClosedAt(form, s, m))
  {
    match form
    case LineForm => LineEndsAtNewline(s);
    case BlockForm => BlockEndsAtBalance(1, s);
    case StringForm => QuotedEndsUnescaped('"', s); QuotedBody('"', s);
    case CharForm => QuotedEndsUnescaped('\'', s); QuotedBody('\'', s);
    case RawForm(n) => RawEnds(n, s);
  }

  lemma QuotedBody(quote: char, s: string)
    ensures quote == '"' ==> BodyLength(InString, s) == QuotedLength(quote, s)
    ensures quote == '\'' ==> BodyLength(InChar, s) == QuotedLength(quote, s)
  {
  }

  /** Whether a body is closed does not depend on what comes later. */
  lemma ClosedBefore(form: Form, body: string, u: string, k: nat)
    requires k <= |body|
    ensures IsClosedAt(form, body + u, k) <==> IsClosedAt(form, body, k)
  {
    assert (body + u)[..k] == body[..k];
    if k > 0 { SameBackslashes(body, u, k - 1); }
  }

  lemma {:induction false} SameBackslashes(body: string, u: string, k: nat)
    requires k <= |body|
    ensures Backslashes(body + u, k) == Backslashes(body, k)
  {
    if k > 0 { SameBackslashes(body, u, k - 1); }
  }

  lemma WholeBody(form: Form, body: string, u: string)
    requires IsClosedAt(form, body, |body|) && forall k :: 0 <= k < |body| ==> !IsClosedAt(form, body, k)
    ensures BodyLength(ModeOf(form), body + u) == |body|
  {
    var m := BodyLength(ModeOf(form), body + u);
    BodyEnds(form, body + u);
    ClosedBefore(form, body, u, |body|);
    if m < |body| { ClosedBefore(form, body, u, m); }
  }

  // ---------------------------------------------------------------------
  // Whole regions
  // ---------------------------------------------------------------------

  /** A whole literal or comment is one region, whatever follows. */
  lemma WholeIsRegion(form: Form, r: string, u: string)
    requires IsWhole(form, r)
    ensures Opens(r + u) && RegionLength(r + u) == |r|
  {
    var k := |OpenerText(form)|;
    var body := r[k..];
    assert OpenerText(form) <= r + u;
    OpenedAs(form, r + u);
    WholeBody(form, body, u);
    assert (r + u)[k..] == body + u;
  }

  /** One that is never closed takes the rest of the text. */
  lemma UnclosedIsRegion(form: Form, r: string)
    requires IsUnclosed(form, r)
    ensures Opens(r) && RegionLength(r) == |r|
  {
    OpenedAs(form, r);
    BodyEnds(form, r[|OpenerText(form)|..]);
  }

  /** A text is code at its start, or starts with a whole literal or comment, or is an unclosed one. */
  lemma SplitsUp(s: string)
    requires s != ""
    ensures || IsCode(s)
            || (exists form, n :: 0 < n <= |s| && IsWhole(form, s[..n]))
            || (exists form :: IsUnclosed(form, s))
  {
    OpensExactlyWhen(s);
    if Opens(s) {
      var form := OpenedForm(s);
      OpenedAs(form, s);
      RegionIsForm(form, s);
    }
  }

  lemma RegionIsForm(form: Form, s: string)
    requires StartsAs(form, s) && Opens(s) && OpenedMode(s) == ModeOf(form) && OpenerLength(s) == |OpenerText(form)|
    ensures IsWhole(form, s[..RegionLength(s)]) || IsUnclosed(form, s)
  {
    var k, n := |OpenerText(form)|, RegionLength(s);
    var body, rest := s[k..n], s[n..];
    RegionParts(s, k, n);
    BodyEnds(form, s[k..]);
    BodyIsForm(form, body, rest, BodyLength(ModeOf(form), s[k..]));
    FormOfParts(form, s[..n], body);
    if rest == "" { assert s[..n] == s; }
  }

  lemma FormOfParts(form: Form, r: string, body: string)
    requires StartsAs(form, r) && r[|OpenerText(form)|..] == body
    requires forall k :: 0 <= k < |body| ==> !IsClosedAt(form, body, k)
    ensures if IsClosedAt(form, body, |body|) then IsWhole(form, r) else IsUnclosed(form, r)
  {
  }

  lemma RegionParts(s: string, k: nat, n: nat)
    requires k <= n <= |s|
    ensures s[k..] == s[k..n] + s[n..] && s[..n][k..] == s[k..n] && |s[k..n]| == n - k
    ensures s[..n][..k] == s[..k]
  {
  }

  lemma BodyIsForm(form: Form, body: string, rest: string, n: nat)
    requires n == |body| && (rest != "" ==> IsClosedAt(form, body + rest, n))
    requires forall k :: 0 <= k < n ==> !IsClosedAt(form, body + rest, k)
    ensures forall k :: 0 <= k < n ==> !IsClosedAt(form, body, k)
    ensures IsClosedAt(form, body, n) || rest == ""
  {
    forall k | 0 <= k <= n ensures IsClosedAt(form, body + rest, k) <==> IsClosedAt(form, body, k) {
      ClosedBefore(form, body, rest, k);
    }
  }

  // ---------------------------------------------------------------------
  // The substitution
  // ---------------------------------------------------------------------

  /** The substitution copies a whole literal or comment and goes on behind it. */
  lemma WholeIsCopied(form: Form, r: string, u: string, find: string, replacement: string)
    requires find != "" && IsWhole(form, r)
    ensures Scan(r + u, find, replacement) == r + Scan(u, find, replacement)
  {
    WholeIsRegion(form, r, u);
    assert (r + u)[..|r|] == r && (r + u)[|r|..] == u;
  }

  /** It copies one that is not closed. */
  lemma UnclosedIsCopied(form: Form, r: string, find: string, replacement: string)
    requires find != "" && IsUnclosed(form, r)
    ensures Scan(r, find, replacement) == r
  {
    UnclosedIsRegion(form, r);
    assert r[..|r|] == r && r[|r|..] == "";
  }

  /** In code it replaces a match, and copies a character where there is none. */
  lemma CodeIsReplaced(s: string, find: string, replacement: string)
    requires find != "" && IsCode(s)
    ensures Scan(s, find, replacement) ==
            if find <= s then replacement + Scan(s[|find|..], find, replacement)
            else [s[0]] + Scan(s[1..], find, replacement)
  {
    OpensExactlyWhen(s);
  }

  // What a line, a string, a character, a raw string and a block look like.

  lemma LineText(w: string)
    requires forall k :: 0 <= k < |w| ==> w[k] != '\n'
    ensures IsWhole(LineForm, "//" + w + "\n")
  {
    var r := "//" + w + "\n";
    assert r[2..] == w + "\n";
  }

  lemma QuotedText(form: Form, w: string)
    requires form == StringForm || form == CharForm
    requires forall k :: 0 <= k < |w| ==> w[k] != OpenerText(form)[0] && w[k] != '\\'
    ensures IsWhole(form, OpenerText(form) + w + OpenerText(form))
  {
    var r := OpenerText(form) + w + OpenerText(form);
    assert r[1..] == w + OpenerText(form);
  }

  lemma RawText(n: nat, w: string)
    requires forall k :: 0 <= k < |w| ==> w[k] != '"'
    ensures IsWhole(RawForm(n), "r" + HashText(n) + "\"" + w + "\"" + HashText(n))
  {
    var opener, body := OpenerText(RawForm(n)), w + "\"" + HashText(n);
    var r := "r" + HashText(n) + "\"" + w + "\"" + HashText(n);
    assert r == opener + body && r[|opener|..] == body;
  }

  lemma BlockText(t: string)
    requires 1 + Net(t) == 0 && forall k :: 0 <= k < |t| ==> 1 + Net(t[..k]) > 0
    ensures IsWhole(BlockForm, "/*" + t)
  {
    assert ("/*" + t)[2..] == t && t[..|t|] == t;
  }
}
