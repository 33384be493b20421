/**
 * The parts of Python's `str` that the pipeline scripts rely on:
 * whitespace, `strip()`, `split()`, `split(sep)`, the substring test `in`,
 * `startswith`, `str(n)` for a natural number and the `:04d` format.
 */
module PyText {
  import opened Wrappers

  /** Python's `str.isspace()` for one character: what `strip()` and `split()` remove. */
  predicate IsSpace(c: char) {
    || ('\t' <= c <= '\r')
    || ('\U{1C}' <= c <= '\U{1F}')
    || c == ' ' || c == '\U{85}' || c == '\U{A0}' || c == '\U{1680}'
    || ('\U{2000}' <= c <= '\U{200A}')
    || c == '\U{2028}' || c == '\U{2029}' || c == '\U{202F}' || c == '\U{205F}' || c == '\U{3000}'
  }

  predicate NoSpace(s: string) {
    forall k :: 0 <= k < |s| ==> !IsSpace(s[k])
  }

  predicate AllSpace(s: string) {
    forall k :: 0 <= k < |s| ==> IsSpace(s[k])
  }

  /** No whitespace at either end: what `strip()` leaves. */
  predicate IsStripped(s: string) {
    s == [] || (!IsSpace(s[0]) && !IsSpace(s[|s| - 1]))
  }

  /** Number of whitespace characters at the front of `s`. */
  function LeadingSpaces(s: string): (n: nat)
    ensures n <= |s|
    ensures forall k :: 0 <= k < n ==> IsSpace(s[k])
    ensures n < |s| ==> !IsSpace(s[n])
  {
    if |s| > 0 && IsSpace(s[0]) then
      var m := LeadingSpaces(s[1..]);
      assert forall k :: 1 <= k < |s| ==> s[k] == s[1..][k - 1];
      m + 1
    else 0
  }

  /** Number of whitespace characters at the back of `s`. */
  function TrailingSpaces(s: string): (n: nat)
    ensures n <= |s|
    ensures forall k :: |s| - n <= k < |s| ==> IsSpace(s[k])
    ensures n < |s| ==> !IsSpace(s[|s| - 1 - n])
  {
    if |s| > 0 && IsSpace(s[|s| - 1]) then
      var m := TrailingSpaces(s[..|s| - 1]);
      assert forall k :: 0 <= k < |s| - 1 ==> s[k] == s[..|s| - 1][k];
      m + 1
    else 0
  }

  /** Python's `s.strip()`: `s` without its leading and trailing whitespace. */
  function Strip(s: string): (r: string)
    ensures IsStripped(r)
    ensures r == [] <==> AllSpace(s)
    ensures exists a :: Framed(s, r, a)
  {
    var a := LeadingSpaces(s);
    if a == |s| then
      assert Framed(s, [], 0);
      []
    else
      var b := |s| - TrailingSpaces(s);
      assert !IsSpace(s[a]);
      assert Framed(s, s[a..b], a);
      s[a..b]
  }

  /** `s` is `r` with only whitespace before it (the first `a` characters) and after it. */
  predicate Framed(s: string, r: string, a: int) {
    && 0 <= a <= |s| - |r|
    && (forall k :: 0 <= k < a ==> IsSpace(s[k]))
    && s[a..a + |r|] == r
    && (forall k :: a + |r| <= k < |s| ==> IsSpace(s[k]))
  }

  lemma StripOfStripped(s: string)
    requires IsStripped(s)
    ensures Strip(s) == s
  {
    if s != [] {
      assert LeadingSpaces(s) == 0;
      assert TrailingSpaces(s) == 0;
      assert s[0..|s|] == s;
    }
  }

  /** `strip()` is idempotent. */
  lemma StripIdempotent(s: string)
    ensures Strip(Strip(s)) == Strip(s)
  {
    StripOfStripped(Strip(s));
  }

  /** Number of non-whitespace characters at the front of `s`. */
  function WordLength(s: string): (n: nat)
    ensures n <= |s|
    ensures NoSpace(s[..n])
    ensures n < |s| ==> IsSpace(s[n])
  {
    if |s| > 0 && !IsSpace(s[0]) then
      var m := WordLength(s[1..]);
      assert s[..m + 1] == [s[0]] + s[1..][..m];
      m + 1
    else 0
  }

  /**
   * Python's `s.split()` with no separator: the maximal runs of non-whitespace
   * characters, in order.
   */
  function Split(s: string): (r: seq<string>)
    ensures forall k :: 0 <= k < |r| ==> r[k] != [] && NoSpace(r[k])
    decreases |s|
  {
    var a := LeadingSpaces(s);
    if a == |s| then []
    else
      var t := s[a..];
      var w := WordLength(t);
      assert w > 0 by { assert !IsSpace(t[0]); }
      [t[..w]] + Split(t[w..])
  }

  /** Python's `s.strip().split()`. */
  function Tokens(s: string): seq<string> {
    Split(Strip(s))
  }

  /** Python's `" ".join(words)`. */
  function JoinSpaced(words: seq<string>): string {
    if |words| == 0 then []
    else if |words| == 1 then words[0]
    else words[0] + " " + JoinSpaced(words[1..])
  }

  lemma SplitSkipsSpace(c: char, s: string)
    requires IsSpace(c)
    ensures Split([c] + s) == Split(s)
  {
    var s' := [c] + s;
    assert LeadingSpaces(s') == LeadingSpaces(s) + 1;
    assert s'[LeadingSpaces(s')..] == s[LeadingSpaces(s)..];
  }

  lemma SplitOfWord(w: string, rest: string)
    requires w != [] && NoSpace(w)
    requires rest == [] || IsSpace(rest[0])
    ensures Split(w + rest) == [w] + Split(rest)
  {
    var s := w + rest;
    assert LeadingSpaces(s) == 0 by { assert !IsSpace(s[0]); }
    assert s[0..] == s;
    WordOfPrefix(w, rest);
    assert s[..|w|] == w && s[|w|..] == rest;
  }

  lemma {:induction false} WordOfPrefix(w: string, rest: string)
    requires NoSpace(w)
    requires rest == [] || IsSpace(rest[0])
    ensures WordLength(w + rest) == |w|
    decreases |w|
  {
    if w != [] {
      assert (w + rest)[1..] == w[1..] + rest;
      WordOfPrefix(w[1..], rest);
    } else {
      assert w + rest == rest;
    }
  }

  /** Splitting words joined by single spaces gives the words back. */
  lemma {:induction false} SplitJoinSpaced(words: seq<string>)
    requires forall k :: 0 <= k < |words| ==> words[k] != [] && NoSpace(words[k])
    ensures Split(JoinSpaced(words)) == words
    decreases |words|
  {
    if |words| == 0 {
    } else if |words| == 1 {
      assert Split(words[0]) == [words[0]] by {
        SplitOfWord(words[0], []);
        assert words[0] + [] == words[0];
      }
    } else {
      var tail := JoinSpaced(words[1..]);
      assert Split(JoinSpaced(words)) == [words[0]] + Split(tail) by {
        SplitSpacedStep(words[0], tail);
      }
      assert Split(tail) == words[1..] by {
        assert forall k :: 0 <= k < |words| - 1 ==> words[1..][k] == words[k + 1];
        SplitJoinSpaced(words[1..]);
      }
      assert [words[0]] + words[1..] == words;
    }
  }

  /** A word followed by one space and more text splits into that word and the text's words. */
  lemma SplitSpacedStep(w: string, tail: string)
    requires w != [] && NoSpace(w)
    ensures Split(w + " " + tail) == [w] + Split(tail)
  {
    var rest := [' '] + tail;
    assert w + " " + tail == w + rest;
    SplitOfWord(w, rest);
    SplitSkipsSpace(' ', tail);
  }

  /** Python's `s.split(sep)` for a one-character separator. */
  function SplitOn(s: string, sep: char): (r: seq<string>)
    ensures |r| >= 1
    ensures forall k :: 0 <= k < |r| ==> sep !in r[k]
  {
    if |s| == 0 then [[]]
    else if s[0] == sep then [[]] + SplitOn(s[1..], sep)
    else
      var t := SplitOn(s[1..], sep);
      [[s[0]] + t[0]] + t[1..]
  }

  /** The first piece of a split is the text before the first separator, or all of it. */
  lemma {:induction false} SplitOnFirst(s: string, sep: char)
    ensures var p := SplitOn(s, sep)[0];
            |p| <= |s| && s[..|p|] == p && (|p| < |s| ==> s[|p|] == sep)
  {
    if |s| > 0 && s[0] != sep {
      SplitOnFirst(s[1..], sep);
    }
  }

  /** Python's `sep.join(pieces)` for a one-character separator. */
  function JoinOn(pieces: seq<string>, sep: char): string
    requires |pieces| >= 1
  {
    if |pieces| == 1 then pieces[0] else pieces[0] + [sep] + JoinOn(pieces[1..], sep)
  }

  /** Joining the pieces of a split with the separator gives the original string. */
  lemma {:induction false} JoinSplitOn(s: string, sep: char)
    ensures JoinOn(SplitOn(s, sep), sep) == s
  {
    if |s| == 0 {
    } else if s[0] == sep {
      JoinSplitOn(s[1..], sep);
      assert [sep] + s[1..] == s;
    } else {
      var t := SplitOn(s[1..], sep);
      JoinSplitOn(s[1..], sep);
      if |t| == 1 {
        assert [s[0]] + s[1..] == s;
      } else {
        assert t == [t[0]] + t[1..];
        assert [s[0]] + t[0] + [sep] + JoinOn(t[1..], sep) == [s[0]] + (t[0] + [sep] + JoinOn(t[1..], sep));
        assert [s[0]] + s[1..] == s;
      }
    }
  }

  lemma SplitOnNoSep(s: string, sep: char)
    requires sep !in s
    ensures SplitOn(s, sep) == [s]
  {
    if |s| > 0 {
      assert s == [s[0]] + s[1..];
      SplitOnNoSep(s[1..], sep);
      assert [s[0]] + s[1..] == s;
    }
  }

  /** A separator splits the string into the pieces before it and the pieces after it. */
  lemma {:induction false} SplitOnConcat(a: string, sep: char, b: string)
    ensures SplitOn(a + [sep] + b, sep) == SplitOn(a, sep) + SplitOn(b, sep)
    decreases |a|
  {
    var s := a + [sep] + b;
    if |a| == 0 {
      assert s[1..] == b;
    } else {
      assert s[1..] == a[1..] + [sep] + b;
      SplitOnConcat(a[1..], sep, b);
      if a[0] != sep {
        var t := SplitOn(a[1..], sep);
        assert SplitOn(s[1..], sep) == t + SplitOn(b, sep);
      }
    }
  }

  /** Pieces that do not contain the separator survive a join and a split unchanged. */
  lemma {:induction false} SplitJoinOn(pieces: seq<string>, sep: char)
    requires |pieces| >= 1
    requires forall k :: 0 <= k < |pieces| ==> sep !in pieces[k]
    ensures SplitOn(JoinOn(pieces, sep), sep) == pieces
    decreases |pieces|
  {
    if |pieces| == 1 {
      SplitOnNoSep(pieces[0], sep);
    } else {
      SplitOnConcat(pieces[0], sep, JoinOn(pieces[1..], sep));
      SplitOnNoSep(pieces[0], sep);
      SplitJoinOn(pieces[1..], sep);
      assert [pieces[0]] + pieces[1..] == pieces;
    }
  }

  /** `sub` occurs in `s` starting at position `i`. */
  predicate OccursAt(s: string, sub: string, i: int) {
    0 <= i <= |s| - |sub| && s[i..i + |sub|] == sub
  }

  /** Python's `sub in s` for strings: `sub` occurs in `s` at some position. */
  function Contains(s: string, sub: string): (b: bool)
    ensures b <==> exists i :: OccursAt(s, sub, i)
    decreases |s|
  {
    if |sub| > |s| then false
    else if s[..|sub|] == sub then
      assert OccursAt(s, sub, 0);
      true
    else
      var b := Contains(s[1..], sub);
      assert b ==> exists i :: OccursAt(s, sub, i) by {
        if b {
          var i :| OccursAt(s[1..], sub, i);
          assert s[i + 1..i + 1 + |sub|] == s[1..][i..i + |sub|];
          assert OccursAt(s, sub, i + 1);
        }
      }
      assert (exists i :: OccursAt(s, sub, i)) ==> b by {
        if exists i :: OccursAt(s, sub, i) {
          var i :| OccursAt(s, sub, i);
          assert i != 0;
          assert s[1..][i - 1..i - 1 + |sub|] == s[i..i + |sub|];
          assert OccursAt(s[1..], sub, i - 1);
        }
      }
      b
  }

  /** Python's `s.startswith(prefix)`. */
  predicate StartsWith(s: string, prefix: string) {
    |prefix| <= |s| && s[..|prefix|] == prefix
  }

  /** The digit character for `d`. */
  function DigitChar(d: nat): (c: char)
    requires d < 10
    ensures '0' <= c <= '9'
  {
    '0' + d as char
  }

  predicate AllDigits(s: string) {
    forall k :: 0 <= k < |s| ==> '0' <= s[k] <= '9'
  }

  /** The number a string of decimal digits denotes (leading zeros allowed). */
  function DigitsValue(s: string): nat
    requires AllDigits(s)
  {
    if s == [] then 0 else DigitsValue(s[..|s| - 1]) * 10 + (s[|s| - 1] - '0') as nat
  }

  /** Python's `str(n)` for a natural number. */
  function Decimal(n: nat): (r: string)
    ensures r != [] && AllDigits(r)
    ensures r[0] == '0' <==> n == 0
  {
    if n < 10 then [DigitChar(n)] else Decimal(n / 10) + [DigitChar(n % 10)]
  }

  /** Reading back `str(n)` gives `n`. */
  lemma {:induction false} DecimalValue(n: nat)
    ensures DigitsValue(Decimal(n)) == n
  {
    if n >= 10 {
      DecimalValue(n / 10);
      var d := Decimal(n);
      assert d[..|d| - 1] == Decimal(n / 10);
    }
  }

  lemma DecimalInjective(m: nat, n: nat)
    requires Decimal(m) == Decimal(n)
    ensures m == n
  {
    DecimalValue(m);
    DecimalValue(n);
  }

  /** `str(n)` has at most four characters below 10000. */
  lemma {:induction false} DecimalLength(n: nat)
    ensures n < 10 ==> |Decimal(n)| == 1
    ensures n < 100 ==> |Decimal(n)| <= 2
    ensures n < 1000 ==> |Decimal(n)| <= 3
    ensures n < 10000 ==> |Decimal(n)| <= 4
  {
    if n >= 10 { DecimalLength(n / 10); }
  }

  function Zeros(k: nat): (r: string)
    ensures |r| == k && AllDigits(r)
  {
    seq(k, _ => '0')
  }

  lemma {:induction false} LeadingZerosValue(k: nat, s: string)
    requires AllDigits(s)
    ensures DigitsValue(Zeros(k) + s) == DigitsValue(s)
    decreases |s|
  {
    var t := Zeros(k) + s;
    if s == [] {
      assert t == Zeros(k);
      ZerosValue(k);
    } else {
      assert t[..|t| - 1] == Zeros(k) + s[..|s| - 1];
      LeadingZerosValue(k, s[..|s| - 1]);
    }
  }

  lemma {:induction false} ZerosValue(k: nat)
    ensures DigitsValue(Zeros(k)) == 0
  {
    if k > 0 {
      assert Zeros(k)[..k - 1] == Zeros(k - 1);
      ZerosValue(k - 1);
    }
  }

  /** Python's `f"{n:04d}"`: `str(n)` left-padded with zeros to at least four characters. */
  function Pad4(n: nat): (r: string)
    ensures AllDigits(r) && |r| >= 4
  {
    var d := Decimal(n);
    if |d| < 4 then Zeros(4 - |d|) + d else d
  }

  /** Reading back the padded form gives `n`; so the padding is injective. */
  lemma Pad4Value(n: nat)
    ensures DigitsValue(Pad4(n)) == n
  {
    DecimalValue(n);
    if |Decimal(n)| < 4 {
      LeadingZerosValue(4 - |Decimal(n)|, Decimal(n));
    }
  }

  /** Below 10000 the padded form is exactly four characters wide. */
  lemma Pad4Width(n: nat)
    requires n < 10000
    ensures |Pad4(n)| == 4
  {
    DecimalLength(n);
  }

  lemma Pad4Injective(m: nat, n: nat)
    requires Pad4(m) == Pad4(n)
    ensures m == n
  {
    Pad4Value(m);
    Pad4Value(n);
  }

  /** A string framed by a fixed prefix and suffix determines what is between them. */
  lemma FrameInjective(prefix: string, a: string, b: string, suffix: string)
    requires prefix + a + suffix == prefix + b + suffix
    ensures a == b
  {
    var s := prefix + a + suffix;
    assert |a| == |b|;
    assert s[|prefix|..|prefix| + |a|] == a;
    assert (prefix + b + suffix)[|prefix|..|prefix| + |b|] == b;
  }

  /** `[line.strip() for line in lines if line.strip()]`. */
  function StrippedNonBlank(lines: seq<string>): (r: seq<string>)
    ensures |r| <= |lines|
    ensures forall k :: 0 <= k < |r| ==> r[k] != [] && IsStripped(r[k])
    decreases |lines|
  {
    if lines == [] then []
    else
      var s := Strip(lines[0]);
      (if s == [] then [] else [s]) + StrippedNonBlank(lines[1..])
  }

  /** The comprehension distributes over concatenation, so it keeps the lines' order. */
  lemma {:induction false} StrippedNonBlankConcat(a: seq<string>, b: seq<string>)
    ensures StrippedNonBlank(a + b) == StrippedNonBlank(a) + StrippedNonBlank(b)
    decreases |a|
  {
    if a != [] {
      assert (a + b)[1..] == a[1..] + b;
      StrippedNonBlankConcat(a[1..], b);
    } else {
      assert a + b == b;
    }
  }

  /** Every non-blank line is kept, stripped. */
  lemma {:induction false} StrippedNonBlankKeeps(lines: seq<string>)
    ensures forall i :: 0 <= i < |lines| && Strip(lines[i]) != [] ==> Strip(lines[i]) in StrippedNonBlank(lines)
    decreases |lines|
  {
    if lines != [] {
      StrippedNonBlankKeeps(lines[1..]);
      var r := StrippedNonBlank(lines);
      var s0 := Strip(lines[0]);
      var tail := StrippedNonBlank(lines[1..]);
      assert r == (if s0 == [] then [] else [s0]) + tail;
      forall i | 0 <= i < |lines| && Strip(lines[i]) != []
        ensures Strip(lines[i]) in r
      {
        if i == 0 {
          assert r[0] == s0;
        } else {
          assert lines[i] == lines[1..][i - 1];
          assert Strip(lines[1..][i - 1]) in tail;
        }
      }
    }
  }

  /** One line contributes its strip when that is non-blank and nothing when it is blank. */
  lemma StrippedNonBlankOne(line: string)
    ensures StrippedNonBlank([line]) == (if Strip(line) == [] then [] else [Strip(line)])
  {
    assert [line][1..] == [];
  }

  /** Every kept entry is the strip of some input line. */
  lemma {:induction false} StrippedNonBlankSound(lines: seq<string>, k: nat)
    requires k < |StrippedNonBlank(lines)|
    ensures exists i :: 0 <= i < |lines| && StrippedNonBlank(lines)[k] == Strip(lines[i])
    decreases |lines|
  {
    var r := StrippedNonBlank(lines);
    var rest := lines[1..];
    var tail := StrippedNonBlank(rest);
    var head := if Strip(lines[0]) == [] then [] else [Strip(lines[0])];
    assert r == head + tail;
    if k < |head| {
      assert r[k] == Strip(lines[0]);
    } else {
      var k' := k - |head|;
      assert r[k] == tail[k'];
      StrippedNonBlankSound(rest, k');
      var i :| 0 <= i < |rest| && tail[k'] == Strip(rest[i]);
      assert rest[i] == lines[i + 1];
      assert r[k] == Strip(lines[i + 1]);
    }
  }

  /** Nothing is kept exactly when every line is blank. */
  lemma StrippedNonBlankEmpty(lines: seq<string>)
    ensures StrippedNonBlank(lines) == [] <==> forall i :: 0 <= i < |lines| ==> Strip(lines[i]) == []
  {
    var r := StrippedNonBlank(lines);
    if r != [] {
      StrippedNonBlankSound(lines, 0);
      var i :| 0 <= i < |lines| && r[0] == Strip(lines[i]);
      assert Strip(lines[i]) != [];
    } else {
      StrippedNonBlankKeeps(lines);
    }
  }

  /** `[float(v) for v in tokens]`, where `parse` stands for `float()`; `None` is the ValueError. */
  function ParseAll(tokens: seq<string>, parse: string -> Option<real>): (r: Option<seq<real>>)
    ensures r.Some? <==> forall k :: 0 <= k < |tokens| ==> parse(tokens[k]).Some?
    ensures r.Some? ==> |r.value| == |tokens| &&
                        forall k :: 0 <= k < |tokens| ==> Some(r.value[k]) == parse(tokens[k])
    decreases |tokens|
  {
    if tokens == [] then Some([])
    else
      match parse(tokens[0])
      case None => None
      case Some(v) =>
        match ParseAll(tokens[1..], parse)
        case None =>
          assert exists k :: 0 <= k < |tokens[1..]| && parse(tokens[1..][k]).None?;
          None
        case Some(vs) => Some([v] + vs)
  }
}
