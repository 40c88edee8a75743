/**
 * String primitives of the two languages the system is written in: Rust's `str`
 * methods and JavaScript's `String.prototype` methods, each with the white-space
 * set its own standard uses, plus decimal formatting and parsing of integers.
 */
module Text {
  import opened Wrappers
  import S = Seqs

  /** Which language's definition of white space applies. */
  datatype Lang = Rust | Js

  /** Rust's `char::is_whitespace`: the Unicode `White_Space` property. */
  predicate IsRustSpace(c: char) {
    ('\t' <= c <= '\r') || c == ' ' || c == '\U{0085}' || c == '\U{00A0}' || c == '\U{1680}'
    || ('\U{2000}' <= c <= '\U{200A}') || c == '\U{2028}' || c == '\U{2029}'
    || c == '\U{202F}' || c == '\U{205F}' || c == '\U{3000}'
  }

  /** ECMAScript's WhiteSpace and LineTerminator characters (what `trim` and `parseInt` skip). */
  predicate IsJsSpace(c: char) {
    c == '\t' || c == '\n' || c == '\U{000B}' || c == '\U{000C}' || c == '\r' || c == ' '
    || c == '\U{00A0}' || c == '\U{1680}' || ('\U{2000}' <= c <= '\U{200A}')
    || c == '\U{2028}' || c == '\U{2029}' || c == '\U{202F}' || c == '\U{205F}'
    || c == '\U{3000}' || c == '\U{FEFF}'
  }

  predicate IsSpace(lang: Lang, c: char) {
    if lang == Rust then IsRustSpace(c) else IsJsSpace(c)
  }

  predicate NoSpace(lang: Lang, s: string) {
    forall i :: 0 <= i < |s| ==> !IsSpace(lang, s[i])
  }

  /** `s.startsWith(p)` / `s.starts_with(p)`. */
  predicate StartsWith(s: string, p: string) {
    |p| <= |s| && s[..|p|] == p
  }

  /** `s.includes(t)` / `s.contains(t)`. */
  predicate Contains(s: string, t: string) {
    exists i :: 0 <= i <= |s| && StartsWith(s[i..], t)
  }

  // ---------------------------------------------------------------------------
  // Trimming

  /** The position of the first character at or after `i` that is not white space (`|s|` when none is). */
  function SpanEnd(lang: Lang, s: string, i: nat): (n: nat)
    requires i <= |s|
    ensures i <= n <= |s|
    ensures forall k :: i <= k < n ==> IsSpace(lang, s[k])
    ensures n < |s| ==> !IsSpace(lang, s[n])
    decreases |s| - i
  {
    if i < |s| && IsSpace(lang, s[i]) then SpanEnd(lang, s, i + 1) else i
  }

  /** The position just past the last character before `j` that is not white space (0 when none is). */
  function SpanStart(lang: Lang, s: string, j: nat): (n: nat)
    requires j <= |s|
    ensures n <= j
    ensures forall k :: n <= k < j ==> IsSpace(lang, s[k])
    ensures 0 < n ==> !IsSpace(lang, s[n - 1])
  {
    if 0 < j && IsSpace(lang, s[j - 1]) then SpanStart(lang, s, j - 1) else j
  }

  /** Where `s.trim()` starts: the number of white-space characters in front. */
  function TrimOffset(lang: Lang, s: string): (a: nat)
    ensures a <= |s|
  {
    SpanEnd(lang, s, 0)
  }

  /** Where `s.trim()` ends: just past the last character that is not white space. */
  function TrimLimit(lang: Lang, s: string): (b: nat)
    ensures b <= |s|
  {
    SpanStart(lang, s, |s|)
  }

  /** Only one position has white space in front of it and none at it. */
  lemma TrimOffsetAt(lang: Lang, s: string, a: nat)
    requires a <= |s| && forall i :: 0 <= i < a ==> IsSpace(lang, s[i])
    requires a < |s| ==> !IsSpace(lang, s[a])
    ensures TrimOffset(lang, s) == a
  {
    var n := TrimOffset(lang, s);
  }

  /** Only one position has white space behind it and none just before it. */
  lemma TrimLimitAt(lang: Lang, s: string, b: nat)
    requires b <= |s| && forall i :: b <= i < |s| ==> IsSpace(lang, s[i])
    requires 0 < b ==> !IsSpace(lang, s[b - 1])
    ensures TrimLimit(lang, s) == b
  {
    var n := TrimLimit(lang, s);
  }

  /** `s.trimStart()`: `s` without its leading white space. */
  function TrimStart(lang: Lang, s: string): (r: string)
    ensures |r| <= |s| && r == s[|s| - |r|..]
    ensures r != [] ==> !IsSpace(lang, r[0])
    ensures forall i :: 0 <= i < |s| - |r| ==> IsSpace(lang, s[i])
  {
    s[TrimOffset(lang, s)..]
  }

  /**
   * `r` is `s` with white space removed at both ends: the slice of `s` from
   * `a` whose outside is all white space and whose ends are not.
   */
  predicate TrimmedAt(lang: Lang, s: string, a: nat, r: string) {
    && a + |r| <= |s|
    && r == s[a..a + |r|]
    && (forall i :: 0 <= i < a ==> IsSpace(lang, s[i]))
    && (forall i :: a + |r| <= i < |s| ==> IsSpace(lang, s[i]))
    && (r != [] ==> !IsSpace(lang, r[0]) && !IsSpace(lang, r[|r| - 1]))
  }

  /** `s.trim()`: the slice of `s` left after removing white space at both ends. */
  function Trim(lang: Lang, s: string): (r: string)
    ensures TrimmedAt(lang, s, TrimOffset(lang, s), r)
  {
    var a, b := TrimOffset(lang, s), TrimLimit(lang, s);
    if a < b then s[a..b] else []
  }

  /** A string is its own trim exactly when neither end is white space. */
  lemma TrimFixedPoint(lang: Lang, s: string)
    ensures Trim(lang, s) == s <==> (s == [] || (!IsSpace(lang, s[0]) && !IsSpace(lang, s[|s| - 1])))
  {
    if s != [] && !IsSpace(lang, s[0]) && !IsSpace(lang, s[|s| - 1]) {
      TrimOffsetAt(lang, s, 0);
      TrimLimitAt(lang, s, |s|);
    }
  }

  /** Trimming twice is trimming once. */
  lemma TrimIdempotent(lang: Lang, s: string)
    ensures Trim(lang, Trim(lang, s)) == Trim(lang, s)
  {
    TrimFixedPoint(lang, Trim(lang, s));
  }

  /** Trimming keeps only characters of the string. */
  lemma TrimKeepsOnly(lang: Lang, s: string)
    ensures forall x :: x in Trim(lang, s) ==> x in s
  {
    var a := TrimOffset(lang, s);
    SliceKeepsOnly(s, a, a + |Trim(lang, s)|);
  }

  lemma SliceKeepsOnly(s: string, a: nat, b: nat)
    requires a <= b <= |s|
    ensures forall x :: x in s[a..b] ==> x in s
  {
    forall x | x in s[a..b] ensures x in s {
      var k :| 0 <= k < b - a && s[a..b][k] == x;
      assert s[a + k] == x;
    }
  }

  /** Trimming removes exactly the white space around a string whose ends are not white space. */
  lemma TrimPadded(lang: Lang, pre: string, s: string, post: string)
    requires forall i :: 0 <= i < |pre| ==> IsSpace(lang, pre[i])
    requires forall i :: 0 <= i < |post| ==> IsSpace(lang, post[i])
    requires s != [] && !IsSpace(lang, s[0]) && !IsSpace(lang, s[|s| - 1])
    ensures Trim(lang, pre + s + post) == s
  {
    var x := pre + s + post;
    var a, b := |pre|, |pre| + |s|;
    forall i | 0 <= i < a ensures IsSpace(lang, x[i]) {
      assert x[i] == pre[i];
    }
    forall i | b <= i < |x| ensures IsSpace(lang, x[i]) {
      assert x[i] == post[i - b];
    }
    assert x[a] == s[0] && x[b - 1] == s[|s| - 1];
    TrimOffsetAt(lang, x, a);
    TrimLimitAt(lang, x, b);
    assert x[a..b] == s;
  }

  // ---------------------------------------------------------------------------
  // Splitting on one separator character and joining

  /** JavaScript's `s.split(c)` (and Rust's `s.split(c)` collected): never empty. */
  function Split(s: string, c: char): (r: seq<string>)
    ensures |r| >= 1
    ensures forall i :: 0 <= i < |r| ==> c !in r[i]
    decreases |s|
  {
    if s == [] then [""]
    else if s[0] == c then [""] + Split(s[1..], c)
    else
      var rest := Split(s[1..], c);
      [[s[0]] + rest[0]] + rest[1..]
  }

  /** `xs.join(c)`. */
  function Join(xs: seq<string>, c: char): string
    decreases |xs|
  {
    if xs == [] then ""
    else if |xs| == 1 then xs[0]
    else xs[0] + [c] + Join(xs[1..], c)
  }

  /** Joining the pieces of a split gives back the original string. */
  lemma {:induction false} JoinSplit(s: string, c: char)
    ensures Join(Split(s, c), c) == s
    decreases |s|
  {
    if s == [] {
    } else if s[0] == c {
      JoinSplit(s[1..], c);
      assert Split(s, c) == [""] + Split(s[1..], c);
    } else {
      JoinSplit(s[1..], c);
      var rest := Split(s[1..], c);
      assert Split(s, c) == [[s[0]] + rest[0]] + rest[1..];
      if |rest| == 1 {
        assert Join(rest, c) == rest[0];
      } else {
        assert Join(rest, c) == rest[0] + [c] + Join(rest[1..], c);
        assert ([[s[0]] + rest[0]] + rest[1..])[1..] == rest[1..];
      }
    }
  }

  /** Splitting a join of separator-free pieces gives back the pieces. */
  lemma {:induction false} SplitJoin(xs: seq<string>, c: char)
    requires |xs| >= 1
    requires forall i :: 0 <= i < |xs| ==> c !in xs[i]
    ensures Split(Join(xs, c), c) == xs
    decreases |xs|, |xs[0]|
  {
    if |xs| == 1 {
      SplitNoSeparator(xs[0], c);
    } else if xs[0] == [] {
      assert Join(xs, c) == [c] + Join(xs[1..], c);
      SplitJoin(xs[1..], c);
      assert ([c] + Join(xs[1..], c))[1..] == Join(xs[1..], c);
    } else {
      var s := Join(xs, c);
      var ys := [xs[0][1..]] + xs[1..];
      assert Join(ys, c) == xs[0][1..] + [c] + Join(xs[1..], c);
      assert s == [xs[0][0]] + Join(ys, c);
      assert s[1..] == Join(ys, c);
      assert forall i :: 0 <= i < |ys| ==> c !in ys[i] by {
        assert forall x :: x in xs[0][1..] ==> x in xs[0];
      }
      SplitJoin(ys, c);
      assert [xs[0][0]] + xs[0][1..] == xs[0];
    }
  }

  /** Splitting a string that starts with `x`: a new empty piece for a separator, else `x` joins the first piece. */
  lemma SplitCons(x: char, t: string, c: char)
    ensures Split([x] + t, c) == if x == c then [""] + Split(t, c)
                                 else [[x] + Split(t, c)[0]] + Split(t, c)[1..]
  {
    assert ([x] + t)[1..] == t;
  }

  /** A separator splits the text into the pieces of its two sides. */
  lemma {:induction false} SplitAround(a: string, c: char, b: string)
    ensures Split(a + [c] + b, c) == Split(a, c) + Split(b, c)
    decreases |a|
  {
    if a == [] {
      assert a + [c] + b == [c] + b;
      SplitCons(c, b, c);
    } else {
      var t := a[1..] + [c] + b;
      assert a + [c] + b == [a[0]] + t;
      assert a == [a[0]] + a[1..];
      SplitCons(a[0], t, c);
      SplitCons(a[0], a[1..], c);
      SplitAround(a[1..], c, b);
      var ra, rb := Split(a[1..], c), Split(b, c);
      if a[0] == c {
        S.AppendAssoc([""], ra, rb);
      } else {
        ExtendFirst([a[0]], ra, rb);
      }
    }
  }

  /** Growing the first piece of `ra + rb` grows the first piece of `ra`. */
  lemma ExtendFirst(h: string, ra: seq<string>, rb: seq<string>)
    requires ra != []
    ensures [h + (ra + rb)[0]] + (ra + rb)[1..] == ([h + ra[0]] + ra[1..]) + rb
  {
    assert (ra + rb)[0] == ra[0];
    assert (ra + rb)[1..] == ra[1..] + rb;
    S.AppendAssoc([h + ra[0]], ra[1..], rb);
  }

  /** Joining one more piece appends a separator and the piece. */
  lemma {:induction false} JoinSnoc(xs: seq<string>, y: string, c: char)
    requires |xs| >= 1
    ensures Join(xs + [y], c) == Join(xs, c) + [c] + y
    decreases |xs|
  {
    if |xs| == 1 {
      assert (xs + [y])[1..] == [y];
    } else {
      assert (xs + [y])[1..] == xs[1..] + [y];
      JoinSnoc(xs[1..], y, c);
    }
  }

  lemma {:induction false} SplitNoSeparator(s: string, c: char)
    requires c !in s
    ensures Split(s, c) == [s]
    decreases |s|
  {
    if s != [] {
      assert c !in s[1..] by { assert forall x :: x in s[1..] ==> x in s; }
      SplitNoSeparator(s[1..], c);
      assert s[0] != c;
      assert [s[0]] + s[1..] == s;
    }
  }

  // ---------------------------------------------------------------------------
  // Rust's `split_whitespace`

  /** The longest prefix of `s` holding no Rust white space. */
  function Word(s: string): (r: string)
    ensures |r| <= |s| && r == s[..|r|] && NoSpace(Rust, r)
    ensures |r| < |s| ==> IsRustSpace(s[|r|])
  {
    if s == [] || IsRustSpace(s[0]) then [] else [s[0]] + Word(s[1..])
  }

  /** `s.split_whitespace()`: the maximal runs of non-white-space characters, in order. */
  function SplitWhitespace(s: string): (r: seq<string>)
    ensures forall i :: 0 <= i < |r| ==> r[i] != [] && NoSpace(Rust, r[i])
    decreases |s|
  {
    if s == [] then []
    else if IsRustSpace(s[0]) then SplitWhitespace(s[1..])
    else
      var w := Word(s);
      [w] + SplitWhitespace(s[|w|..])
  }

  /** The word of a space-free text followed by white space (or nothing) is that text. */
  lemma {:induction false} WordOf(w: string, rest: string)
    requires NoSpace(Rust, w)
    requires rest == [] || IsRustSpace(rest[0])
    ensures Word(w + rest) == w
    decreases |w|
  {
    if w == [] {
      assert w + rest == rest;
    } else {
      assert (w + rest)[1..] == w[1..] + rest;
      WordOf(w[1..], rest);
      assert [w[0]] + w[1..] == w;
    }
  }

  /** A text made of white space only has no tokens. */
  lemma {:induction false} SplitWhitespaceOfSpaces(s: string)
    requires forall i :: 0 <= i < |s| ==> IsRustSpace(s[i])
    ensures SplitWhitespace(s) == []
    decreases |s|
  {
    if s != [] {
      SplitWhitespaceOfSpaces(s[1..]);
    }
  }

  /**
   * White space, then a word, then a text that is empty or starts with white
   * space: the word is the first token and the rest are the tokens of that text.
   */
  lemma {:induction false} SplitWhitespaceCons(pre: string, w: string, rest: string)
    requires forall i :: 0 <= i < |pre| ==> IsRustSpace(pre[i])
    requires w != [] && NoSpace(Rust, w)
    requires rest == [] || IsRustSpace(rest[0])
    ensures SplitWhitespace(pre + w + rest) == [w] + SplitWhitespace(rest)
    decreases |pre|
  {
    var s := pre + w + rest;
    if pre == [] {
      assert s == w + rest;
      WordOf(w, rest);
      assert s[|w|..] == rest;
    } else {
      assert s[1..] == pre[1..] + w + rest;
      SplitWhitespaceCons(pre[1..], w, rest);
    }
  }

  /** The tokens of words joined by single spaces are those words: the tokens are the text's words. */
  lemma {:induction false} SplitWhitespaceJoin(ws: seq<string>)
    requires forall i :: 0 <= i < |ws| ==> ws[i] != [] && NoSpace(Rust, ws[i])
    ensures SplitWhitespace(Join(ws, ' ')) == ws
    decreases |ws|
  {
    if |ws| == 1 {
      assert ws[0] + [] == ws[0];
      SplitWhitespaceCons([], ws[0], []);
      assert [] + ws[0] + [] == Join(ws, ' ');
    } else if |ws| > 1 {
      var rest := [' '] + Join(ws[1..], ' ');
      assert Join(ws, ' ') == [] + ws[0] + rest;
      SplitWhitespaceCons([], ws[0], rest);
      assert rest[1..] == Join(ws[1..], ' ');
      SplitWhitespaceJoin(ws[1..]);
      assert [ws[0]] + ws[1..] == ws;
    }
  }

  // ---------------------------------------------------------------------------
  // Decimal integers

  predicate IsDigit(c: char) { '0' <= c <= '9' }

  predicate AllDigits(s: string) { forall i :: 0 <= i < |s| ==> IsDigit(s[i]) }

  function DigitChar(d: nat): (c: char)
    requires d < 10
    ensures IsDigit(c) && c as int - '0' as int == d
  {
    (('0' as int) + d) as char
  }

  function NatToDigits(n: nat): (r: string)
    ensures |r| >= 1 && AllDigits(r)
    ensures |r| > 1 ==> r[0] != '0'
  {
    if n < 10 then [DigitChar(n)] else NatToDigits(n / 10) + [DigitChar(n % 10)]
  }

  function DigitsToNat(s: string): nat
    requires AllDigits(s)
  {
    if s == [] then 0 else DigitsToNat(s[..|s| - 1]) * 10 + (s[|s| - 1] as int - '0' as int)
  }

  lemma {:induction false} DigitsRoundTrip(n: nat)
    ensures DigitsToNat(NatToDigits(n)) == n
  {
    if n >= 10 {
      var r := NatToDigits(n);
      assert r[..|r| - 1] == NatToDigits(n / 10);
      DigitsRoundTrip(n / 10);
    }
  }

  /** Rust's `Display` for integers and JavaScript's `toString` of an integral number. */
  function IntToString(n: int): (r: string)
    ensures n >= 0 ==> r != [] && AllDigits(r) && DigitsToNat(r) == n
    ensures n < 0 ==> |r| >= 2 && r[0] == '-' && AllDigits(r[1..]) && DigitsToNat(r[1..]) == -n
    ensures n >= 0 && |r| > 1 ==> r[0] != '0'
    ensures n < 0 && |r| > 2 ==> r[1] != '0'
  {
    if n < 0 then
      var d := NatToDigits(-n);
      DigitsRoundTrip(-n);
      assert ("-" + d)[1..] == d;
      "-" + d
    else
      DigitsRoundTrip(n);
      NatToDigits(n)
  }

  /** A rendered integer starts with a sign or digit and ends with a digit: no white space at either end. */
  lemma IntToStringEnds(n: int)
    ensures var s := IntToString(n);
      s != [] && IsDigit(s[|s| - 1]) && (s[0] == '-' || IsDigit(s[0]))
  {
  }

  /** `k` copies of `c`. */
  function Repeat(c: char, k: nat): (r: string)
    ensures |r| == k && forall i :: 0 <= i < k ==> r[i] == c
  {
    if k == 0 then "" else [c] + Repeat(c, k - 1)
  }

  /** Left-pads with zeros to at least `width` characters. */
  function ZeroPad(s: string, width: nat): (r: string)
    ensures |r| == if |s| < width then width else |s|
    ensures r[|r| - |s|..] == s
    ensures forall i :: 0 <= i < |r| - |s| ==> r[i] == '0'
  {
    Repeat('0', if |s| < width then width - |s| else 0) + s
  }

  /** Rust's `format!("{:0w$}", n)`: sign-aware zero padding to a total width `w`. */
  function FormatZeroPadded(n: int, w: nat): (r: string)
    ensures |r| == if |IntToString(n)| < w then w else |IntToString(n)|
    ensures w <= |IntToString(n)| ==> r == IntToString(n)
  {
    if n < 0 then
      var d := NatToDigits(-n);
      var p := ZeroPad(d, if w > 0 then w - 1 else 0);
      assert w <= 1 + |d| ==> p == p[|p| - |d|..] == d;
      "-" + p
    else
      var d := NatToDigits(n);
      var p := ZeroPad(d, w);
      assert w <= |d| ==> p == p[|p| - |d|..] == d;
      p
  }

  /** `{}` is `{:0}`: no padding at all. */
  lemma IntToStringIsUnpadded(n: int)
    ensures FormatZeroPadded(n, 0) == IntToString(n)
  {
    if n < 0 {
      assert ZeroPad(NatToDigits(-n), 0) == NatToDigits(-n);
    } else {
      assert ZeroPad(NatToDigits(n), 0) == NatToDigits(n);
    }
  }

  /** A decimal integer with an optional `-` and any number of leading zeros. */
  function ParseSigned(s: string): (r: Option<int>)
  {
    if |s| > 0 && s[0] == '-' then
      if |s| > 1 && AllDigits(s[1..]) then Some(-(DigitsToNat(s[1..]) as int)) else None
    else if |s| > 0 && AllDigits(s) then Some(DigitsToNat(s))
    else None
  }

  /** Leading zeros do not change the value of a digit string. */
  lemma {:induction false} LeadingZeros(k: nat, d: string)
    requires AllDigits(d)
    ensures AllDigits(Repeat('0', k) + d) && DigitsToNat(Repeat('0', k) + d) == DigitsToNat(d)
    decreases |d|
  {
    var z := Repeat('0', k);
    if d == [] {
      assert z + d == z;
      ZerosAreZero(k);
    } else {
      var init := d[..|d| - 1];
      assert (z + d)[..|z + d| - 1] == z + init;
      LeadingZeros(k, init);
    }
  }

  lemma {:induction false} ZerosAreZero(k: nat)
    ensures AllDigits(Repeat('0', k)) && DigitsToNat(Repeat('0', k)) == 0
    decreases k
  {
    if k > 0 {
      assert Repeat('0', k)[..k - 1] == Repeat('0', k - 1);
      ZerosAreZero(k - 1);
    }
  }

  /** A zero-padded rendering parses back to its value: the padding hides nothing. */
  lemma ParseSignedOfPadded(n: int, w: nat)
    ensures ParseSigned(FormatZeroPadded(n, w)) == Some(n)
  {
    var p := PaddedMagnitude(n, w);
    if n < 0 {
      ParseSignedOfNegative(FormatZeroPadded(n, w), p, n);
    } else {
      ParseSignedOfDigits(FormatZeroPadded(n, w), n);
    }
  }

  /**
   * A rendered integer is `-` and the digits of the magnitude for a negative
   * number, those digits alone otherwise.
   */
  lemma PaddedMagnitude(n: int, w: nat) returns (p: string)
    ensures FormatZeroPadded(n, w) == if n < 0 then "-" + p else p
    ensures p != [] && AllDigits(p) && DigitsToNat(p) == if n < 0 then -n else n
  {
    var m: nat := if n < 0 then -n else n;
    var width := if n < 0 && w > 0 then w - 1 else if n < 0 then 0 else w;
    var d := NatToDigits(m);
    DigitsRoundTrip(m);
    PaddedDigits(d, width);
    p := ZeroPad(d, width);
  }

  /** `ParseSigned` reads `-` and digits back as the negated value of the digits. */
  lemma ParseSignedOfNegative(s: string, p: string, n: int)
    requires n < 0 && s == "-" + p
    requires p != [] && AllDigits(p) && DigitsToNat(p) == -n
    ensures ParseSigned(s) == Some(n)
  {
    assert s[1..] == p;
  }

  /** `ParseSigned` reads a digit string back as its value. */
  lemma ParseSignedOfDigits(s: string, n: nat)
    requires s != [] && AllDigits(s) && DigitsToNat(s) == n
    ensures ParseSigned(s) == Some(n)
  {
    assert IsDigit(s[0]);
  }

  /** Zero padding keeps a digit string's value. */
  lemma PaddedDigits(d: string, width: nat)
    requires d != [] && AllDigits(d)
    ensures ZeroPad(d, width) != [] && AllDigits(ZeroPad(d, width))
    ensures DigitsToNat(ZeroPad(d, width)) == DigitsToNat(d)
  {
    var k: nat := if |d| < width then width - |d| else 0;
    assert ZeroPad(d, width) == Repeat('0', k) + d;
    LeadingZeros(k, d);
  }

  /** The characters of a rendered integer: a `-` at most at the front, digits elsewhere. */
  lemma PaddedChars(n: int, w: nat)
    ensures var s := FormatZeroPadded(n, w);
      s != [] && forall i :: 0 <= i < |s| ==> IsDigit(s[i]) || (i == 0 && s[i] == '-')
  {
    var p := PaddedMagnitude(n, w);
    if n < 0 {
      var s := "-" + p;
      forall i | 1 <= i < |s| ensures IsDigit(s[i]) {
        assert s[i] == p[i - 1];
      }
    }
  }

  const I64Min: int := -0x8000_0000_0000_0000
  const I64Max: int := 0x7FFF_FFFF_FFFF_FFFF

  predicate InI64(n: int) { I64Min <= n <= I64Max }

  /** Rust's `str::parse::<i64>`: an optional `+` or `-`, then at least one ASCII digit, in range. */
  function ParseI64(s: string): (r: Option<int>)
    ensures r.Some? ==> InI64(r.value)
  {
    var signed := |s| > 0 && (s[0] == '+' || s[0] == '-');
    var digits := if signed then s[1..] else s;
    if digits == [] || !AllDigits(digits) then None
    else
      var v := if signed && s[0] == '-' then -(DigitsToNat(digits) as int) else DigitsToNat(digits);
      if InI64(v) then Some(v) else None
  }

  /** Parsing the decimal rendering of an in-range integer gives that integer back. */
  lemma ParseI64OfIntToString(n: int)
    requires InI64(n)
    ensures ParseI64(IntToString(n)) == Some(n)
  {
    var s := IntToString(n);
    if n < 0 {
      var d := NatToDigits(-n);
      assert s == "-" + d && s[0] == '-' && s[1..] == d;
      DigitsRoundTrip(-n);
    } else {
      var d := NatToDigits(n);
      assert s == d && IsDigit(s[0]);
      DigitsRoundTrip(n);
    }
  }

  /** The position of the first character at or after `i` that is not an ASCII digit (`|s|` when none is). */
  function DigitsEnd(s: string, i: nat): (n: nat)
    requires i <= |s|
    ensures i <= n <= |s|
    ensures forall k :: i <= k < n ==> IsDigit(s[k])
    ensures n < |s| ==> !IsDigit(s[n])
    decreases |s| - i
  {
    if i < |s| && IsDigit(s[i]) then DigitsEnd(s, i + 1) else i
  }

  /** The longest prefix of ASCII digits. */
  function LeadingDigits(s: string): (r: string)
    ensures |r| <= |s| && r == s[..|r|] && AllDigits(r)
    ensures |r| < |s| ==> !IsDigit(s[|r|])
  {
    s[..DigitsEnd(s, 0)]
  }

  /**
   * JavaScript's `Number.parseInt(s, 10)` on integral values: white space is skipped,
   * an optional sign is read, then the longest run of digits; `None` is `NaN`.
   */
  function JsParseInt(s: string): (r: Option<int>)
    ensures r.Some? <==> LeadingDigits(
      var t := TrimStart(Js, s); if |t| > 0 && (t[0] == '+' || t[0] == '-') then t[1..] else t) != []
  {
    var t := TrimStart(Js, s);
    var signed := |t| > 0 && (t[0] == '+' || t[0] == '-');
    var d := LeadingDigits(if signed then t[1..] else t);
    if d == [] then None
    else Some(if signed && t[0] == '-' then -(DigitsToNat(d) as int) else DigitsToNat(d))
  }

  /** `parseInt` reads back what `toString` wrote. */
  lemma JsParseIntOfIntToString(n: int)
    ensures JsParseInt(IntToString(n)) == Some(n)
  {
    var m: nat := if n < 0 then -n else n;
    DigitsRoundTrip(m);
    if n < 0 {
      JsParseIntOfNegative(NatToDigits(m));
    } else {
      JsParseIntOfDigits(NatToDigits(m));
    }
  }

  /** `parseInt` of a run of digits is their value. */
  lemma JsParseIntOfDigits(d: string)
    requires d != [] && AllDigits(d)
    ensures JsParseInt(d) == Some(DigitsToNat(d) as int)
  {
    assert IsDigit(d[0]);
    SignOrDigitFirst(d);
    LeadingDigitsOfDigits(d);
    var t := TrimStart(Js, d);
    assert t == d && !(|t| > 0 && (t[0] == '+' || t[0] == '-'));
  }

  /** `parseInt` of a minus sign and a run of digits is the negated value. */
  lemma JsParseIntOfNegative(d: string)
    requires d != [] && AllDigits(d)
    ensures JsParseInt("-" + d) == Some(-(DigitsToNat(d) as int))
  {
    var s := "-" + d;
    assert s[0] == '-';
    SignOrDigitFirst(s);
    var t := TrimStart(Js, s);
    assert t == s;
    assert t[1..] == d;
    LeadingDigitsOfDigits(d);
    assert LeadingDigits(t[1..]) == d;
  }

  /** Nothing is trimmed in front of a sign or a digit. */
  lemma SignOrDigitFirst(s: string)
    requires s != [] && (IsDigit(s[0]) || s[0] == '-' || s[0] == '+')
    ensures TrimStart(Js, s) == s
  {
    SignOrDigitIsNotSpace(Js, s[0]);
    TrimStartUnspaced(Js, s);
  }

  lemma SignOrDigitIsNotSpace(lang: Lang, c: char)
    requires IsDigit(c) || c == '-' || c == '+'
    ensures !IsSpace(lang, c)
  {
  }

  lemma TrimStartUnspaced(lang: Lang, s: string)
    requires s != [] && !IsSpace(lang, s[0])
    ensures TrimStart(lang, s) == s
  {
    TrimOffsetAt(lang, s, 0);
  }

  lemma LeadingDigitsOfDigits(s: string)
    requires AllDigits(s)
    ensures LeadingDigits(s) == s
  {
  }
}
