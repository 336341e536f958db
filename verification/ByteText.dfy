/** The substitution on text beyond ASCII.

    The machine of `Scanner` reads bytes and writes each byte it copies as a character of its
    own, and it tests for a match on the text from the current byte on, which may lie inside a
    character. This module says what becomes of text that way. */
module ByteText {
  import opened Scanner

  // ---------------------------------------------------------------------
  // UTF-8, section 3 of RFC 3629
  // ---------------------------------------------------------------------

  predicate IsAscii(c: char) { c as int < 0x80 }

  predicate IsContinuation(c: char) { 0x80 <= c as int < 0xC0 }

  predicate Ascii(s: string) { forall k :: 0 <= k < |s| ==> IsAscii(s[k]) }

  predicate High(w: string) { forall k :: 0 <= k < |w| ==> !IsAscii(w[k]) }

  function Byte(n: int): char
    requires 0 <= n < 0x100
  {
    n as char
  }

  /** The bytes of a character, each as the character of that number. */
  function EncodeChar(c: char): (b: string)
    ensures b != ""
    ensures IsAscii(c) ==> b == [c]
    ensures !IsAscii(c) ==> |b| > 1 && High(b) && !IsContinuation(b[0]) && IsContinuation(b[1])
  {
    var n := c as int;
    if n < 0x80 then [c]
    else if n < 0x800 then [Byte(0xC0 + n / 0x40), Byte(0x80 + n % 0x40)]
    else if n < 0x1_0000 then [Byte(0xE0 + n / 0x1000), Byte(0x80 + n / 0x40 % 0x40), Byte(0x80 + n % 0x40)]
    else [Byte(0xF0 + n / 0x4_0000), Byte(0x80 + n / 0x1000 % 0x40), Byte(0x80 + n / 0x40 % 0x40), Byte(0x80 + n % 0x40)]
  }

  function Encode(s: string): string {
    if s == "" then "" else EncodeChar(s[0]) + Encode(s[1..])
  }

  // ---------------------------------------------------------------------
  // The function on text
  // ---------------------------------------------------------------------

  datatype Outcome = Panic | Output(text: string)

  /** In code the rest of the text is taken at every byte, which fails inside a character. */
  predicate Panics(b: string, find: string)
    requires find != ""
    decreases |b|
  {
    b != "" && ((!Opens(b) && IsContinuation(b[0])) || Panics(b[Advance(b, find)..], find))
  }

  function ReplaceInText(source: string, find: string, replacement: string): Outcome {
    if find == "" then Output(source)
    else if Panics(Encode(source), Encode(find)) then Panic
    else Output(Scan(Encode(source), Encode(find), replacement))
  }

  // ---------------------------------------------------------------------
  // Characters and their bytes
  // ---------------------------------------------------------------------

  lemma EncodeFirst(s: string)
    requires s != ""
    ensures Encode(s) != "" && (IsAscii(s[0]) ==> Encode(s) == [s[0]] + Encode(s[1..]))
    ensures IsAscii(s[0]) == IsAscii(Encode(s)[0]) && (IsAscii(s[0]) ==> Encode(s)[0] == s[0] && Encode(s)[1..] == Encode(s[1..]))
  {
    var b := EncodeChar(s[0]);
    assert Encode(s)[0] == b[0];
    if IsAscii(s[0]) { assert Encode(s)[1..] == Encode(s[1..]); }
  }

  lemma {:induction false} EncodeSplit(s: string, n: nat)
    requires n <= |s|
    ensures Encode(s) == Encode(s[..n]) + Encode(s[n..])
  {
    if n == 0 {
      assert s[0..] == s;
    } else {
      EncodeSplit(s[1..], n - 1);
      PrefixSlices(s, 1, n);
      assert s[..n][0] == s[0] && s[..n][1..] == s[1..][..n - 1];
      Reassociate(EncodeChar(s[0]), Encode(s[1..][..n - 1]), Encode(s[n..]));
    }
  }

  lemma {:induction false} EncodeAscii(s: string)
    requires Ascii(s)
    ensures Encode(s) == s
  {
    if s != "" { EncodeAscii(s[1..]); }
  }

  lemma {:induction false} EncodeGrows(s: string)
    ensures |Encode(s)| >= |s| && (|Encode(s)| == |s| ==> Ascii(s))
  {
    if s != "" {
      EncodeGrows(s[1..]);
      assert |Encode(s)| == |s| ==> IsAscii(s[0]) && Ascii(s[1..]);
      if |Encode(s)| == |s| {
        forall k | 0 <= k < |s| ensures IsAscii(s[k]) {
          if k > 0 { assert s[1..][k - 1] == s[k]; }
        }
      }
    }
  }

  /** ASCII text stands at the start of a text exactly if its bytes do. */
  lemma {:induction false} PrefixOfBytes(find: string, s: string)
    requires Ascii(find)
    ensures find <= s <==> find <= Encode(s)
  {
    if find != "" && s != "" {
      EncodeFirst(s);
      assert find <= s <==> find[0] == s[0] && find[1..] <= s[1..];
      var b := Encode(s);
      assert find <= b <==> find[0] == b[0] && find[1..] <= b[1..];
      if IsAscii(s[0]) { PrefixOfBytes(find[1..], s[1..]); }
    }
  }

  // ---------------------------------------------------------------------
  // Regions in bytes
  // ---------------------------------------------------------------------

  lemma {:induction false} HashesInBytes(s: string)
    ensures Hashes(Encode(s)) == Hashes(s)
    ensures var h := Hashes(s); (h < |s| && IsAscii(s[h]) ==> h < |Encode(s)| && Encode(s)[h] == s[h])
    ensures var h := Hashes(s); h < |Encode(s)| && IsAscii(Encode(s)[h]) ==> h < |s| && Encode(s)[h] == s[h]
  {
    if s != "" {
      EncodeFirst(s);
      if s[0] == '#' {
        HashesInBytes(s[1..]);
        assert Encode(s) == ['#'] + Encode(s[1..]);
      }
    }
  }

  lemma OpeningInBytes(s: string)
    ensures OpenedMode(Encode(s)) == OpenedMode(s)
  {
    if s != "" {
      EncodeFirst(s);
      if IsAscii(s[0]) {
        HashesInBytes(s[1..]);
        if |s| > 1 { EncodeFirst(s[1..]); }
      }
    }
  }

  /** Bytes of characters beyond ASCII end no literal and no comment. */
  lemma {:induction false} HighQuoted(quote: char, w: string, t: string)
    requires High(w) && IsAscii(quote)
    ensures QuotedLength(quote, w + t) == |w| + QuotedLength(quote, t)
  {
    if w == "" {
      assert w + t == t;
    } else {
      HighQuoted(quote, w[1..], t);
      assert (w + t)[1..] == w[1..] + t;
    }
  }

  lemma {:induction false} HighBody(mode: Mode, w: string, t: string)
    requires High(w) && !mode.Normal?
    ensures BodyLength(mode, w + t) == |w| + BodyLength(mode, t)
  {
    if mode.InString? || mode.InChar? {
      HighQuoted(Quote(mode), w, t);
    } else if w == "" {
      assert w + t == t;
    } else {
      HighBody(mode, w[1..], t);
      assert (w + t)[1..] == w[1..] + t;
    }
  }

  /** The number of bytes of the first `n` characters. */
  function Width(s: string, n: nat): nat
    requires n <= |s|
  {
    |Encode(s[..n])|
  }

  lemma WidthStep(s: string, k: nat, n: nat)
    requires k <= n <= |s|
    ensures Width(s, n) == Width(s, k) + Width(s[k..], n - k)
    ensures Width(s, 0) == 0 && (s != "" ==> Width(s, 1) == |EncodeChar(s[0])|)
  {
    EncodeSplit(s[..n], k);
    PrefixSlices(s, k, n);
    assert s[..n][..k] == s[..k];
    if s != "" { assert s[..1][1..] == ""; }
  }

  lemma {:induction false} QuotedInBytes(quote: char, s: string)
    requires IsAscii(quote) && quote != '\\'
    ensures QuotedLength(quote, Encode(s)) == Width(s, QuotedLength(quote, s))
    decreases |s|
  {
    if s != "" {
      EncodeFirst(s);
      var n := QuotedLength(quote, s);
      WidthStep(s, 1, n);
      if s[0] == '\\' && |s| > 1 {
        QuotedInBytes(quote, s[2..]);
        WidthStep(s[1..], 1, n - 1);
        EscapeInBytes(quote, s);
      } else if !IsAscii(s[0]) {
        HighQuoted(quote, EncodeChar(s[0]), Encode(s[1..]));
        QuotedInBytes(quote, s[1..]);
      } else if s[0] != quote {
        QuotedInBytes(quote, s[1..]);
      } else {
        WidthStep(s[1..], 0, 0);
      }
    }
  }

  lemma EscapeInBytes(quote: char, s: string)
    requires |s| > 1 && s[0] == '\\' && IsAscii(quote)
    ensures QuotedLength(quote, Encode(s)) == 1 + |EncodeChar(s[1])| + QuotedLength(quote, Encode(s[2..]))
  {
    var b, c, t := Encode(s), EncodeChar(s[1]), Encode(s[2..]);
    EncodeFirst(s);
    assert s[1..][1..] == s[2..];
    assert b[1..] == c + t;
    assert b[2..] == c[1..] + t;
    if |c| > 1 { HighQuoted(quote, c[1..], t); } else { assert c[1..] + t == t; }
  }

  lemma ClosingInBytes(hashes: nat, s: string)
    ensures ClosesRaw(Encode(s), hashes) == ClosesRaw(s, hashes)
    ensures ClosesRaw(s, hashes) ==> 1 + hashes <= |s| && Width(s, 1 + hashes) == 1 + hashes
  {
    if s != "" {
      EncodeFirst(s);
      if s[0] == '"' {
        HashesInBytes(s[1..]);
        if ClosesRaw(s, hashes) {
          assert Ascii(s[..1 + hashes]) by {
            forall k | 0 <= k < 1 + hashes ensures IsAscii(s[k]) {
              if k > 0 { assert s[1..][k - 1] == '#'; }
            }
          }
          EncodeAscii(s[..1 + hashes]);
        }
      }
    }
  }

  lemma RawGoesOn(hashes: nat, s: string)
    requires s != "" && !ClosesRaw(s, hashes)
    ensures BodyLength(Raw(hashes), s) == 1 + BodyLength(Raw(hashes), s[1..])
  {
  }

  lemma {:induction false} RawInBytes(hashes: nat, s: string)
    ensures BodyLength(Raw(hashes), Encode(s)) == Width(s, BodyLength(Raw(hashes), s))
    decreases |s|
  {
    if s != "" {
      EncodeFirst(s);
      ClosingInBytes(hashes, s);
      if !ClosesRaw(s, hashes) {
        RawInBytes(hashes, s[1..]);
        RawStepInBytes(hashes, s);
      }
    }
  }

  lemma RawStepInBytes(hashes: nat, s: string)
    requires s != "" && !ClosesRaw(s, hashes) && !ClosesRaw(Encode(s), hashes)
    requires BodyLength(Raw(hashes), Encode(s[1..])) == Width(s[1..], BodyLength(Raw(hashes), s[1..]))
    ensures BodyLength(Raw(hashes), Encode(s)) == Width(s, BodyLength(Raw(hashes), s))
  {
    RawGoesOn(hashes, s);
    WidthStep(s, 1, BodyLength(Raw(hashes), s));
    RawCharInBytes(hashes, s);
  }

  lemma RawCharInBytes(hashes: nat, s: string)
    requires s != "" && !ClosesRaw(Encode(s), hashes)
    ensures BodyLength(Raw(hashes), Encode(s)) == |EncodeChar(s[0])| + BodyLength(Raw(hashes), Encode(s[1..]))
  {
    if IsAscii(s[0]) {
      EncodeFirst(s);
      RawGoesOn(hashes, Encode(s));
    } else {
      HighBody(Raw(hashes), EncodeChar(s[0]), Encode(s[1..]));
    }
  }

  lemma {:induction false} LineInBytes(s: string)
    ensures BodyLength(LineComment, Encode(s)) == Width(s, BodyLength(LineComment, s))
    decreases |s|
  {
    if s != "" {
      EncodeFirst(s);
      WidthStep(s, 1, BodyLength(LineComment, s));
      WidthStep(s[1..], 0, 0);
      if s[0] != '\n' {
        LineInBytes(s[1..]);
        if !IsAscii(s[0]) { HighBody(LineComment, EncodeChar(s[0]), Encode(s[1..])); }
      }
    }
  }

  /** Two characters of ASCII at the start of a text stand there in its bytes, and no others do. */
  lemma PairInBytes(s: string, c: char, d: char)
    requires IsAscii(c) && IsAscii(d)
    ensures |s| > 1 && s[0] == c && s[1] == d <==> |Encode(s)| > 1 && Encode(s)[0] == c && Encode(s)[1] == d
    ensures |s| > 1 && s[0] == c && s[1] == d ==> Encode(s)[2..] == Encode(s[2..])
  {
    if s != "" {
      EncodeFirst(s);
      if s[0] == c && |s| > 1 {
        EncodeFirst(s[1..]);
        assert s[1..][1..] == s[2..];
        if s[1] == d { assert Encode(s)[2..] == Encode(s)[1..][1..]; }
      }
    }
  }

  lemma {:induction false} BlockInBytes(depth: nat, s: string)
    ensures BodyLength(BlockComment(depth), Encode(s)) == Width(s, BodyLength(BlockComment(depth), s))
    decreases |s|
  {
    if s != "" {
      var mode, b := BlockComment(depth), Encode(s);
      var n := BodyLength(mode, s);
      EncodeFirst(s);
      PairInBytes(s, '*', '/');
      PairInBytes(s, '/', '*');
      if |s| > 1 && s[0] == '*' && s[1] == '/' {
        PairWidth(s, n);
        if depth > 1 { BlockInBytes(depth - 1, s[2..]); } else { WidthStep(s[2..], 0, 0); }
      } else if |s| > 1 && s[0] == '/' && s[1] == '*' {
        PairWidth(s, n);
        BlockInBytes(depth + 1, s[2..]);
      } else {
        WidthStep(s, 1, n);
        BlockInBytes(depth, s[1..]);
        if !IsAscii(s[0]) { HighBody(mode, EncodeChar(s[0]), Encode(s[1..])); }
      }
    }
  }

  lemma PairWidth(s: string, n: nat)
    requires 2 <= n <= |s| && IsAscii(s[0]) && IsAscii(s[1])
    ensures Width(s, n) == 2 + Width(s[2..], n - 2)
  {
    WidthStep(s, 2, n);
    EncodeAscii(s[..2]);
  }

  lemma BodyInBytes(mode: Mode, s: string)
    ensures BodyLength(mode, Encode(s)) == Width(s, BodyLength(mode, s))
  {
    match mode {
      case Normal => WidthStep(s, 0, 0);
      case InString => QuotedInBytes('"', s);
      case InChar => QuotedInBytes('\'', s);
      case Raw(hashes) => RawInBytes(hashes, s);
      case LineComment => LineInBytes(s);
      case BlockComment(depth) => BlockInBytes(depth, s);
    }
  }

  /** The openers are ASCII. */
  lemma OpenerWidth(s: string)
    requires Opens(s)
    ensures Width(s, OpenerLength(s)) == OpenerLength(s)
  {
    var k := OpenerLength(s);
    forall i | 0 <= i < k ensures IsAscii(s[i]) {
      if OpensRaw(s) && 0 < i < k - 1 { assert s[1..][i - 1] == '#'; }
    }
    assert Ascii(s[..k]);
    EncodeAscii(s[..k]);
  }

  /** A literal or comment takes the bytes of its characters. */
  lemma RegionInBytes(s: string)
    requires Opens(s)
    ensures var n := RegionLength(s);
            Opens(Encode(s)) && RegionLength(Encode(s)) == Width(s, n)
            && Encode(s)[..Width(s, n)] == Encode(s[..n]) && Encode(s)[Width(s, n)..] == Encode(s[n..])
  {
    var k, n, b := OpenerLength(s), RegionLength(s), Encode(s);
    OpeningInBytes(s);
    OpenerWidth(s);
    EncodeSplit(s, k);
    assert b[k..] == Encode(s[k..]);
    BodyInBytes(OpenedMode(s), s[k..]);
    WidthStep(s, k, n);
    EncodeSplit(s, n);
  }

  // ---------------------------------------------------------------------
  // What comes out
  // ---------------------------------------------------------------------

  /** Unless it fails, a run writes as much too much as the bytes of the text are more than its
      characters. */
  lemma {:induction false} ExcessIsKept(s: string, find: string, replacement: string)
    requires find != "" && Ascii(find) && !Panics(Encode(s), find)
    ensures |Scan(Encode(s), find, replacement)| == |Scan(s, find, replacement)| + |Encode(s)| - |s|
    decreases |s|
  {
    if s != "" {
      EncodeFirst(s);
      var b := Encode(s);
      if Opens(s) {
        var n := RegionLength(s);
        RegionInBytes(s);
        ExcessIsKept(s[n..], find, replacement);
      } else {
        OpeningInBytes(s);
        if IsAscii(s[0]) {
          CodeInBytes(s, find);
          ExcessIsKept(s[Advance(s, find)..], find, replacement);
        } else {
          HighCodePanics(s, find);
        }
      }
    }
  }

  lemma CodeInBytes(s: string, find: string)
    requires find != "" && Ascii(find) && s != "" && !Opens(s) && !Opens(Encode(s)) && IsAscii(s[0])
    ensures var n := Advance(s, find);
            Encode(s) != "" && Advance(Encode(s), find) == n && Encode(s)[n..] == Encode(s[n..])
            && (find <= s <==> find <= Encode(s)) && |Encode(s)| - |s| == |Encode(s[n..])| - |s[n..]|
  {
    var n := Advance(s, find);
    EncodeFirst(s);
    PrefixOfBytes(find, s);
    EncodeSplit(s, n);
    if find <= s { EncodeAscii(find); assert s[..n] == find; } else { EncodeAscii(s[..1]); }
  }

  /** In code the run fails at a character beyond ASCII. */
  lemma HighCodePanics(s: string, find: string)
    requires find != "" && Ascii(find) && s != "" && !Opens(Encode(s)) && !IsAscii(s[0])
    ensures Panics(Encode(s), find)
  {
    var b, c := Encode(s), EncodeChar(s[0]);
    EncodeFirst(s);
    assert b[0] == c[0] && b[1..][0] == c[1];
    assert !(find <= b);
    PanicsInside(b, find);
  }

  lemma PanicsInside(b: string, find: string)
    requires find != "" && |b| > 1 && !Opens(b) && !(find <= b) && IsContinuation(b[1])
    ensures Panics(b, find)
  {
    var t := b[1..];
    assert !Opens(t) && Panics(t, find);
    assert Advance(b, find) == 1;
  }

  /** A text comes out as the substitution promises, its literals and comments untouched, exactly
      if all of it is ASCII: otherwise the run fails, or literals grow. */
  lemma KeptExactlyWhenAscii(s: string, find: string, replacement: string)
    requires find != "" && Ascii(find)
    ensures ReplaceInText(s, find, replacement) == Output(Scan(s, find, replacement)) <==> Ascii(s)
  {
    EncodeAscii(find);
    if Ascii(s) {
      EncodeAscii(s);
      AsciiNeverPanics(s, find);
    } else if !Panics(Encode(s), find) {
      ExcessIsKept(s, find, replacement);
      EncodeGrows(s);
    }
  }

  lemma {:induction false} AsciiNeverPanics(s: string, find: string)
    requires find != "" && Ascii(s)
    ensures !Panics(s, find)
    decreases |s|
  {
    if s != "" { AsciiNeverPanics(s[Advance(s, find)..], find); }
  }

  /** One accented letter in a string becomes two, and as a name it makes the run fail. */
  lemma AccentInString(find: string, replacement: string)
    requires find != "" && Ascii(find)
    ensures ReplaceInText("\"\U{E9}\"", find, replacement) == Output("\"\U{C3}\U{A9}\"")
    ensures ReplaceInText("\U{E9}", find, replacement) == Panic
  {
    EncodeAscii(find);
    AccentBytes();
    StringKept("\"\U{C3}\U{A9}\"", find, replacement);
    HighCodePanics("\U{E9}", find);
  }

  lemma StringKept(b: string, find: string, replacement: string)
    requires find != "" && |b| == 4 && b[0] == b[3] == '"' && !IsAscii(b[1]) && !IsAscii(b[2])
    ensures !Panics(b, find) && Scan(b, find, replacement) == b
  {
    HighQuoted('"', b[1..3], b[3..]);
    assert b[1..3] + b[3..] == b[1..];
    assert b[3..] == "\"";
    assert RegionLength(b) == 4;
    assert b[..4] == b && b[4..] == "";
  }

  lemma AccentBytes()
    ensures Encode("\"\U{E9}\"") == "\"\U{C3}\U{A9}\"" && !Opens(Encode("\U{E9}"))
  {
    var s := "\"\U{E9}\"";
    assert EncodeChar('\U{E9}') == "\U{C3}\U{A9}";
    assert s[1..] == "\U{E9}\"" && s[1..][1..] == "\"" && s[1..][1..][1..] == "";
    EncodeFirst("\U{E9}");
  }
}
