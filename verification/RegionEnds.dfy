/** Where literals and comments end, said without following the machine: the first newline, the
    first quote that no backslash escapes, and the first place at which every comment is closed.
    (The end of a raw string is described beside it, by `RawEndsWithCloser`.) */
module RegionEnds {
  import opened Scanner

  // ---------------------------------------------------------------------
  // Line comments
  // ---------------------------------------------------------------------

  /** A line comment ends after the first newline, or with the text. */
  lemma {:induction false} LineEndsAtNewline(s: string)
    ensures var n := BodyLength(LineComment, s);
            && (forall k :: 0 <= k < n - 1 ==> s[k] != '\n')
            && (n < |s| ==> n > 0 && s[n - 1] == '\n')
            && (n == 0 ==> s == "")
  {
    if s != "" && s[0] != '\n' { LineEndsAtNewline(s[1..]); }
  }

  // ---------------------------------------------------------------------
  // Strings and characters
  // ---------------------------------------------------------------------

  /** The number of backslashes that stand directly before position `k`. */
  function Backslashes(s: string, k: nat): nat
    requires k <= |s|
  {
    if k > 0 && s[k - 1] == '\\' then 1 + Backslashes(s, k - 1) else 0
  }

  predicate EndsQuoted(s: string, quote: char, k: nat)
    requires k < |s|
  {
    s[k] == quote && Backslashes(s, k) % 2 == 0
  }

  lemma {:induction false} BackslashesAfterPlain(s: string, k: nat)
    requires s != "" && s[0] != '\\' && k < |s|
    ensures Backslashes(s, k + 1) == Backslashes(s[1..], k)
  {
    if k > 0 && s[k] == '\\' { BackslashesAfterPlain(s, k - 1); }
  }

  lemma {:induction false} BackslashesAfterEscape(s: string, k: nat)
    requires |s| > 1 && s[0] == '\\' && k + 2 <= |s|
    ensures Backslashes(s, k + 2) % 2 == Backslashes(s[2..], k) % 2
  {
    if k > 0 && s[k + 1] == '\\' {
      BackslashesAfterEscape(s, k - 1);
    } else if k == 0 {
      assert Backslashes(s, 1) == 1;
    }
  }

  /** A string or character ends at the first quote after an even number of backslashes, or
      with the text. */
  lemma {:induction false} QuotedEndsUnescaped(quote: char, s: string)
    requires quote != '\\'
    ensures var n := QuotedLength(quote, s);
            && (forall k :: 0 <= k < n - 1 ==> !EndsQuoted(s, quote, k))
            && (n < |s| ==> n > 0 && EndsQuoted(s, quote, n - 1))
            && (n == 0 ==> s == "")
    decreases |s|
  {
    if s != "" && s[0] != quote {
      var e := if s[0] == '\\' && |s| > 1 then 2 else 1;
      QuotedEndsUnescaped(quote, s[e..]);
      forall k | e <= k < |s| ensures EndsQuoted(s, quote, k) == EndsQuoted(s[e..], quote, k - e) {
        ParityAfter(s, e, k);
      }
      assert e == 2 ==> Backslashes(s, 1) == 1;
    }
  }

  lemma ParityAfter(s: string, e: nat, k: nat)
    requires s != "" && e == (if s[0] == '\\' && |s| > 1 then 2 else 1) && e <= k < |s|
    ensures Backslashes(s, k) % 2 == Backslashes(s[e..], k - e) % 2 && s[k] == s[e..][k - e]
  {
    if e == 2 { BackslashesAfterEscape(s, k - 2); } else { BackslashesAfterPlain(s, k - 1); }
  }

  // ---------------------------------------------------------------------
  // Block comments
  // ---------------------------------------------------------------------

  /** What a text of a comment adds to its nesting: openers less closers. */
  function Net(s: string): int
    decreases |s|
  {
    if |s| < 2 then 0
    else if s[..2] == "/*" then Net(s[2..]) + 1
    else if s[..2] == "*/" then Net(s[2..]) - 1
    else Net(s[1..])
  }

  /** A block comment ends at the first place at which its nesting has come back to nothing,
      or with the text. */
  lemma {:induction false} BlockEndsAtBalance(depth: nat, s: string)
    requires depth > 0
    ensures var n := BodyLength(BlockComment(depth), s);
            && (forall k :: 0 <= k < n ==> depth + Net(s[..k]) > 0)
            && (n < |s| ==> depth + Net(s[..n]) == 0)
    decreases |s|
  {
    if s != "" {
      var e := if |s| > 1 && (s[..2] == "/*" || s[..2] == "*/") then 2 else 1;
      var inner := depth + Net(s[..e]);
      if inner > 0 { BlockEndsAtBalance(inner, s[e..]); }
      BlockStep(depth, s, e, inner);
      forall k | 0 <= k <= |s| ensures Net(s[..k]) == if k < e then 0 else Net(s[..e]) + Net(s[e..][..k - e]) {
        NetStep(s, e, k);
      }
    }
  }

  lemma BlockStep(depth: nat, s: string, e: nat, inner: nat)
    requires depth > 0 && s != "" && e == (if |s| > 1 && (s[..2] == "/*" || s[..2] == "*/") then 2 else 1)
    requires inner == depth + Net(s[..e])
    ensures BodyLength(BlockComment(depth), s) == e + if inner > 0 then BodyLength(BlockComment(inner), s[e..]) else 0
  {
    FirstToken(s, e);
    BodyStep(depth, s, e);
  }

  lemma FirstToken(s: string, e: nat)
    requires s != "" && e == (if |s| > 1 && (s[..2] == "/*" || s[..2] == "*/") then 2 else 1)
    ensures Net(s[..e]) == if e == 1 then 0 else if s[0] == '/' then 1 else -1
    ensures e == 2 <==> |s| > 1 && ((s[0] == '/' && s[1] == '*') || (s[0] == '*' && s[1] == '/'))
  {
    if e == 2 {
      assert s[..2][2..] == "" && s[..2][..2] == s[..2];
    }
    if |s| > 1 { assert s[..2] == [s[0], s[1]]; }
  }

  lemma BodyStep(depth: nat, s: string, e: nat)
    requires depth > 0 && s != ""
    requires e == if |s| > 1 && ((s[0] == '/' && s[1] == '*') || (s[0] == '*' && s[1] == '/')) then 2 else 1
    ensures var inner := if e == 1 then depth else if s[0] == '/' then depth + 1 else depth - 1;
            BodyLength(BlockComment(depth), s) == e + if inner > 0 then BodyLength(BlockComment(inner), s[e..]) else 0
  {
  }

  /** Nesting is counted token by token. */
  lemma NetStep(s: string, e: nat, k: nat)
    requires s != "" && e == (if |s| > 1 && (s[..2] == "/*" || s[..2] == "*/") then 2 else 1) && k <= |s|
    ensures Net(s[..k]) == if k < e then 0 else Net(s[..e]) + Net(s[e..][..k - e])
  {
    if k >= 2 {
      assert s[..k][..2] == s[..2];
      assert s[..k][e..] == s[e..][..k - e];
    }
  }
}
