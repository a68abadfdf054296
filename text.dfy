/** The Python string operations the quote core relies on: `str.isspace`,
    `str.strip`, `str.split()`, `str.split(sep)`, `" ".join`, and the decimal
    rendering `str(n)` of integers. */
module Text {

  // ---------------------------------------------------------------- whitespace

  /** Python's `str.isspace()` for one character. */
  predicate IsSpace(c: char) {
    || c == ' '
    || ('\t' <= c <= '\r')
    || ('\U{1C}' <= c <= '\U{1F}')
    || c == '\U{85}' || c == '\U{A0}' || c == '\U{1680}'
    || ('\U{2000}' <= c <= '\U{200A}')
    || c == '\U{2028}' || c == '\U{2029}' || c == '\U{202F}' || c == '\U{205F}' || c == '\U{3000}'
  }

  predicate NoSpace(s: string) {
    forall i :: 0 <= i < |s| ==> !IsSpace(s[i])
  }

  /** A word as `str.split()` yields it: non-empty and free of whitespace. */
  predicate IsWord(w: string) {
    w != [] && NoSpace(w)
  }

  predicate AllWords(ws: seq<string>) {
    forall i :: 0 <= i < |ws| ==> IsWord(ws[i])
  }

  // ---------------------------------------------------------------- strip

  /** The first index at or after `i` that holds no whitespace (`|s|` if none). */
  function SkipSpaces(s: string, i: nat): (r: nat)
    requires i <= |s|
    ensures i <= r <= |s|
    ensures forall k :: i <= k < r ==> IsSpace(s[k])
    ensures r == |s| || !IsSpace(s[r])
    decreases |s| - i
  {
    if i < |s| && IsSpace(s[i]) then SkipSpaces(s, i + 1) else i
  }

  /** The end of `s[lo..j]` once its trailing whitespace is dropped. */
  function SkipSpacesBack(s: string, lo: nat, j: nat): (r: nat)
    requires lo <= j <= |s|
    ensures lo <= r <= j
    ensures forall k :: r <= k < j ==> IsSpace(s[k])
    ensures r == lo || !IsSpace(s[r - 1])
    decreases j
  {
    if j > lo && IsSpace(s[j - 1]) then SkipSpacesBack(s, lo, j - 1) else j
  }

  /** Where the stripped text starts in `s`: after the leading whitespace. */
  function StripStart(s: string): (a: nat)
    ensures a <= |s|
    ensures forall i :: 0 <= i < a ==> IsSpace(s[i])
  {
    SkipSpaces(s, 0)
  }

  /** Where the stripped text ends in `s`: before the trailing whitespace. */
  function StripEnd(s: string): (b: nat)
    ensures StripStart(s) <= b <= |s|
    ensures forall i :: b <= i < |s| ==> IsSpace(s[i])
  {
    SkipSpacesBack(s, StripStart(s), |s|)
  }

  /** `s.strip()`: the stretch of `s` left once the whitespace before and after
      it is cut away, so it neither starts nor ends with whitespace. */
  function Strip(s: string): (r: string)
    ensures |r| <= |s|
    ensures r == [] || (!IsSpace(r[0]) && !IsSpace(r[|r| - 1]))
    ensures exists a, b ::
      && 0 <= a <= b <= |s| && r == s[a..b]
      && (forall i :: 0 <= i < a ==> IsSpace(s[i]))
      && (forall i :: b <= i < |s| ==> IsSpace(s[i]))
  {
    var a, b := StripStart(s), StripEnd(s);
    assert a < b ==> !IsSpace(s[a]) && !IsSpace(s[b - 1]);
    s[a..b]
  }

  /** `s.strip()` is blank exactly when `s` is all whitespace. */
  lemma StripBlank(s: string)
    ensures Strip(s) == [] <==> forall i :: 0 <= i < |s| ==> IsSpace(s[i])
  {
    var a := StripStart(s);
    if a < |s| {
      assert !IsSpace(s[a]);
    }
  }

  /** A string that neither starts nor ends with whitespace is left alone. */
  lemma StripUntouched(s: string)
    requires s == [] || (!IsSpace(s[0]) && !IsSpace(s[|s| - 1]))
    ensures Strip(s) == s
  {
    if s != [] {
      assert StripStart(s) == 0;
      assert StripEnd(s) == |s|;
    }
  }

  lemma StripIdempotent(s: string)
    ensures Strip(Strip(s)) == Strip(s)
  {
    StripUntouched(Strip(s));
  }

  // ---------------------------------------------------------------- split on whitespace

  function Flush(cur: string): seq<string> {
    if cur == [] then [] else [cur]
  }

  /** `str.split()` with no separator, reading `s` while the characters of the
      current word are held in `cur`. */
  function SplitWordsFrom(s: string, cur: string): (ws: seq<string>)
    ensures NoSpace(cur) ==> AllWords(ws)
    decreases |s|
  {
    if s == [] then Flush(cur)
    else if IsSpace(s[0]) then Flush(cur) + SplitWordsFrom(s[1..], [])
    else SplitWordsFrom(s[1..], cur + [s[0]])
  }

  /** `s.split()`: the maximal runs of non-whitespace characters, in order. */
  function SplitWords(s: string): (ws: seq<string>)
    ensures AllWords(ws)
  {
    SplitWordsFrom(s, [])
  }

  /** A whitespace character cuts the text in two whose words simply concatenate. */
  lemma {:induction false} SplitWordsAtSpace(a: string, c: char, b: string, cur: string)
    requires IsSpace(c)
    ensures SplitWordsFrom(a + [c] + b, cur) == SplitWordsFrom(a, cur) + SplitWords(b)
    decreases |a|
  {
    if a == [] {
      assert a + [c] + b == [c] + b;
      assert ([c] + b)[1..] == b;
    } else {
      assert (a + [c] + b)[0] == a[0];
      assert (a + [c] + b)[1..] == a[1..] + [c] + b;
      if IsSpace(a[0]) {
        SplitWordsAtSpace(a[1..], c, b, []);
      } else {
        SplitWordsAtSpace(a[1..], c, b, cur + [a[0]]);
      }
    }
  }

  /** Reading a whitespace-free stretch only extends the current word. */
  lemma {:induction false} SplitWordsInWord(w: string, t: string, cur: string)
    requires NoSpace(w)
    ensures SplitWordsFrom(w + t, cur) == SplitWordsFrom(t, cur + w)
    decreases |w|
  {
    if w == [] {
      assert w + t == t;
      assert cur + w == cur;
    } else {
      assert (w + t)[0] == w[0];
      assert (w + t)[1..] == w[1..] + t;
      SplitWordsInWord(w[1..], t, cur + [w[0]]);
      assert cur + [w[0]] + w[1..] == cur + w;
    }
  }

  /** The characters of `s` that are not whitespace, in order. */
  function NonSpaces(s: string): (r: string)
    ensures NoSpace(r)
    decreases |s|
  {
    if s == [] then ""
    else if IsSpace(s[0]) then NonSpaces(s[1..])
    else [s[0]] + NonSpaces(s[1..])
  }

  /** `"".join(ws)`: the words back to back. */
  function Glued(ws: seq<string>): string
    decreases |ws|
  {
    if ws == [] then "" else ws[0] + Glued(ws[1..])
  }

  lemma {:induction false} GluedAppend(xs: seq<string>, ys: seq<string>)
    ensures Glued(xs + ys) == Glued(xs) + Glued(ys)
    decreases |xs|
  {
    if xs == [] {
      assert xs + ys == ys;
    } else {
      assert (xs + ys)[1..] == xs[1..] + ys;
      GluedAppend(xs[1..], ys);
    }
  }

  /** Reading on from a current word `cur`, the words hold `cur` and then every
      non-whitespace character of the rest, in order. */
  lemma {:induction false} SplitWordsFromChars(s: string, cur: string)
    ensures Glued(SplitWordsFrom(s, cur)) == cur + NonSpaces(s)
    decreases |s|
  {
    if s == [] {
      assert Glued(Flush(cur)) == cur + Glued([]);
    } else if IsSpace(s[0]) {
      SplitWordsFromChars(s[1..], []);
      GluedAppend(Flush(cur), SplitWordsFrom(s[1..], []));
      assert Glued(Flush(cur)) == cur + Glued([]);
    } else {
      SplitWordsFromChars(s[1..], cur + [s[0]]);
    }
  }

  /** `s.split()` drops exactly the whitespace: its words, back to back, are
      the non-whitespace characters of `s` in order. */
  lemma SplitWordsChars(s: string)
    ensures Glued(SplitWords(s)) == NonSpaces(s)
  {
    SplitWordsFromChars(s, []);
  }

  /** `w` is a stretch `s[a..b]` with whitespace or an end of `s` on each side. */
  predicate IsRunOf(s: string, w: string) {
    exists a, b ::
      && 0 <= a <= b <= |s| && w == s[a..b]
      && (a == 0 || IsSpace(s[a - 1]))
      && (b == |s| || IsSpace(s[b]))
  }

  /** Reading `s` from `i` with the current word `s[j..i]`, which starts at the
      beginning of `s` or just after whitespace, every word is a run of `s`. */
  lemma {:induction false} SplitWordsFromRuns(s: string, j: nat, i: nat)
    requires j <= i <= |s| && (j == 0 || IsSpace(s[j - 1]))
    ensures forall k :: 0 <= k < |SplitWordsFrom(s[i..], s[j..i])| ==> IsRunOf(s, SplitWordsFrom(s[i..], s[j..i])[k])
    decreases |s| - i
  {
    var ws := SplitWordsFrom(s[i..], s[j..i]);
    if i == |s| {
      assert ws == Flush(s[j..i]);
      assert s[j..i] != [] ==> IsRunOf(s, s[j..i]);
    } else if IsSpace(s[i]) {
      assert s[i..][1..] == s[i + 1..];
      assert s[i + 1..i + 1] == [];
      SplitWordsFromRuns(s, i + 1, i + 1);
      assert ws == Flush(s[j..i]) + SplitWordsFrom(s[i + 1..], s[i + 1..i + 1]);
      assert s[j..i] != [] ==> IsRunOf(s, s[j..i]);
    } else {
      assert s[i..][1..] == s[i + 1..];
      assert s[j..i] + [s[i]] == s[j..i + 1];
      SplitWordsFromRuns(s, j, i + 1);
    }
  }

  /** Every word of `s.split()` is a whole run of `s`: a stretch of it with
      whitespace or an end of `s` on each side. */
  lemma SplitWordsRuns(s: string)
    ensures forall k :: 0 <= k < |SplitWords(s)| ==> IsRunOf(s, SplitWords(s)[k])
  {
    assert s[0..] == s && s[0..0] == [];
    SplitWordsFromRuns(s, 0, 0);
  }

  /** `" ".join(ws)`. */
  function JoinWords(ws: seq<string>): (s: string)
    ensures AllWords(ws) && ws != [] ==> s != [] && !IsSpace(s[0]) && !IsSpace(s[|s| - 1])
    decreases |ws|
  {
    if ws == [] then ""
    else if |ws| == 1 then ws[0]
    else
      var front := JoinWords(ws[..|ws| - 1]);
      assert AllWords(ws) ==> AllWords(ws[..|ws| - 1]);
      front + " " + ws[|ws| - 1]
  }

  /** Splitting joined words gives the words back: `" ".join(ws).split() == ws`. */
  lemma {:induction false} SplitJoin(ws: seq<string>)
    requires AllWords(ws)
    ensures SplitWords(JoinWords(ws)) == ws
    decreases |ws|
  {
    if |ws| == 1 {
      SplitWordsInWord(ws[0], [], []);
      assert ws[0] + [] == ws[0];
      assert [] + ws[0] == ws[0];
    } else if |ws| > 1 {
      var front, w := ws[..|ws| - 1], ws[|ws| - 1];
      assert AllWords(front);
      SplitJoin(front);
      SplitWordsAtSpace(JoinWords(front), ' ', w, []);
      assert JoinWords(ws) == JoinWords(front) + [' '] + w;
      SplitWordsInWord(w, [], []);
      assert w + [] == w;
      assert [] + w == w;
      assert front + [w] == ws;
    }
  }

  /** The joined text the note wrapper tests: `(" ".join(ws) + " " + w).strip()`
      is the join of one more word. */
  lemma StripJoinWord(ws: seq<string>, w: string)
    requires AllWords(ws) && IsWord(w)
    ensures Strip(JoinWords(ws) + " " + w) == JoinWords(ws + [w])
  {
    if ws == [] {
      assert JoinWords(ws) + " " + w == [' '] + w;
      StripSpaceWord(w);
      assert ws + [w] == [w];
    } else {
      JoinWordsSnoc(ws, w);
      StripUntouched(JoinWords(ws + [w]));
    }
  }

  /** Joining one more word to a non-empty list puts a space before it. */
  lemma JoinWordsSnoc(ws: seq<string>, w: string)
    requires AllWords(ws) && IsWord(w) && ws != []
    ensures AllWords(ws + [w])
    ensures JoinWords(ws + [w]) == JoinWords(ws) + " " + w
  {
    assert (ws + [w])[..|ws|] == ws;
  }

  lemma StripSpaceWord(w: string)
    requires IsWord(w)
    ensures Strip([' '] + w) == w
  {
    var s := [' '] + w;
    assert s[1] == w[0] && s[|s| - 1] == w[|w| - 1];
    assert SkipSpaces(s, 1) == 1;
    assert StripStart(s) == 1;
    assert StripEnd(s) == |s|;
  }

  // ---------------------------------------------------------------- split on a separator

  /** `str.split(sep)` for a one-character separator, with the current part held in `cur`. */
  function SplitOnFrom(s: string, sep: char, cur: string): (parts: seq<string>)
    ensures |parts| >= 1
    ensures sep !in cur ==> forall i :: 0 <= i < |parts| ==> sep !in parts[i]
    decreases |s|
  {
    if s == [] then [cur]
    else if s[0] == sep then [cur] + SplitOnFrom(s[1..], sep, [])
    else SplitOnFrom(s[1..], sep, cur + [s[0]])
  }

  /** `s.split(sep)`: at least one part, and no part holds the separator. */
  function SplitOn(s: string, sep: char): (parts: seq<string>)
    ensures |parts| >= 1
    ensures forall i :: 0 <= i < |parts| ==> sep !in parts[i]
  {
    SplitOnFrom(s, sep, [])
  }

  /** `sep.join(parts)`. */
  function JoinOn(parts: seq<string>, sep: char): string
    requires |parts| >= 1
    decreases |parts|
  {
    if |parts| == 1 then parts[0] else parts[0] + [sep] + JoinOn(parts[1..], sep)
  }

  lemma {:induction false} SplitOnFromJoin(s: string, sep: char, cur: string)
    ensures JoinOn(SplitOnFrom(s, sep, cur), sep) == cur + s
    decreases |s|
  {
    if s == [] {
      assert cur + s == cur;
    } else if s[0] == sep {
      var rest := SplitOnFrom(s[1..], sep, []);
      SplitOnFromJoin(s[1..], sep, []);
      assert ([cur] + rest)[1..] == rest;
      assert [] + s[1..] == s[1..];
      assert cur + s == cur + [sep] + s[1..];
    } else {
      SplitOnFromJoin(s[1..], sep, cur + [s[0]]);
      assert cur + [s[0]] + s[1..] == cur + s;
    }
  }

  /** Splitting loses nothing: `sep.join(s.split(sep)) == s`. */
  lemma SplitOnJoin(s: string, sep: char)
    ensures JoinOn(SplitOn(s, sep), sep) == s
  {
    SplitOnFromJoin(s, sep, []);
    assert [] + s == s;
  }

  /** The words of each string, concatenated in order. */
  function FlatWords(lines: seq<string>): seq<string>
    decreases |lines|
  {
    if lines == [] then [] else SplitWords(lines[0]) + FlatWords(lines[1..])
  }

  lemma {:induction false} FlatWordsAppend(a: seq<string>, b: seq<string>)
    ensures FlatWords(a + b) == FlatWords(a) + FlatWords(b)
    decreases |a|
  {
    if a == [] {
      assert a + b == b;
    } else {
      assert (a + b)[0] == a[0];
      assert (a + b)[1..] == a[1..] + b;
      FlatWordsAppend(a[1..], b);
    }
  }

  lemma {:induction false} FlatWordsSplitOnFrom(s: string, sep: char, cur: string)
    requires IsSpace(sep)
    ensures FlatWords(SplitOnFrom(s, sep, cur)) == SplitWords(cur + s)
    decreases |s|
  {
    if s == [] {
      assert cur + s == cur;
    } else if s[0] == sep {
      var rest := SplitOnFrom(s[1..], sep, []);
      FlatWordsSplitOnFrom(s[1..], sep, []);
      assert ([cur] + rest)[0] == cur;
      assert ([cur] + rest)[1..] == rest;
      assert [] + s[1..] == s[1..];
      SplitWordsAtSpace(cur, sep, s[1..], []);
      assert cur + s == cur + [sep] + s[1..];
    } else {
      FlatWordsSplitOnFrom(s[1..], sep, cur + [s[0]]);
      assert cur + [s[0]] + s[1..] == cur + s;
    }
  }

  /** Splitting into lines first and then into words gives the words of the whole text. */
  lemma FlatWordsSplitOn(s: string, sep: char)
    requires IsSpace(sep)
    ensures FlatWords(SplitOn(s, sep)) == SplitWords(s)
  {
    FlatWordsSplitOnFrom(s, sep, []);
    assert [] + s == s;
  }

  /** `s.split(sep)[0]`: the text before the first `sep`, or all of `s`. */
  function PrefixBefore(s: string, sep: char): (r: string)
    ensures |r| <= |s| && r == s[..|r|]
    ensures sep !in r
    ensures |r| < |s| ==> s[|r|] == sep
    decreases |s|
  {
    if s == [] || s[0] == sep then [] else [s[0]] + PrefixBefore(s[1..], sep)
  }

  // ---------------------------------------------------------------- decimal digits

  predicate IsDigit(c: char) {
    '0' <= c <= '9'
  }

  predicate AllDigits(s: string) {
    forall i :: 0 <= i < |s| ==> IsDigit(s[i])
  }

  function DigitChar(d: nat): (c: char)
    requires d < 10
    ensures IsDigit(c) && (c == '0' <==> d == 0)
  {
    (d + 48) as char
  }

  function DigitValue(c: char): (d: nat)
    requires IsDigit(c)
    ensures d < 10 && DigitChar(d) == c
  {
    c as int - 48
  }

  function Pow10(k: nat): (p: nat)
    ensures p >= 1
  {
    if k == 0 then 1 else 10 * Pow10(k - 1)
  }

  /** Python's `str(n)` for `n >= 0`: decimal digits, no leading zero except for 0 itself. */
  function NatToString(n: nat): (s: string)
    ensures s != [] && AllDigits(s)
    ensures s[0] == '0' <==> n == 0
    decreases n
  {
    if n < 10 then [DigitChar(n)] else NatToString(n / 10) + [DigitChar(n % 10)]
  }

  /** Python's `str(i)`: a minus sign before the digits of a negative number. */
  function IntToString(i: int): (s: string)
    ensures s != [] && (s[0] == '-' <==> i < 0)
    ensures '-' !in s[1..]
  {
    if i < 0 then "-" + NatToString(-i) else NatToString(i)
  }

  /** The number a digit string denotes, leading zeros allowed. */
  function DigitsValue(s: string): (n: nat)
    requires AllDigits(s)
    ensures n < Pow10(|s|)
    decreases |s|
  {
    if s == [] then 0 else DigitsValue(s[..|s| - 1]) * 10 + DigitValue(s[|s| - 1])
  }

  /** Reading back `str(n)` gives `n`. */
  lemma {:induction false} NatToStringValue(n: nat)
    ensures DigitsValue(NatToString(n)) == n
    decreases n
  {
    var s := NatToString(n);
    if n >= 10 {
      NatToStringValue(n / 10);
      assert s[..|s| - 1] == NatToString(n / 10);
    }
  }

  lemma NatToStringInjective(a: nat, b: nat)
    requires NatToString(a) == NatToString(b)
    ensures a == b
  {
    NatToStringValue(a);
    NatToStringValue(b);
  }

  /** A number below `10 ** k` has at most `k` digits. */
  lemma {:induction false} NatToStringLength(n: nat, k: nat)
    requires k >= 1 && n < Pow10(k)
    ensures |NatToString(n)| <= k
    decreases n
  {
    if n >= 10 {
      assert k >= 2;
      NatToStringLength(n / 10, k - 1);
    }
  }

  /** A digit string that starts with a non-zero digit denotes a positive number. */
  lemma {:induction false} LeadingDigitPositive(s: string)
    requires s != [] && AllDigits(s) && s[0] != '0'
    ensures DigitsValue(s) > 0
    decreases |s|
  {
    if |s| > 1 {
      LeadingDigitPositive(s[..|s| - 1]);
    } else {
      assert DigitChar(DigitValue(s[0])) == s[0];
    }
  }

  /** `str(n)` is the only digit string without a leading zero that denotes `n`. */
  lemma {:induction false} CanonicalDigits(s: string, n: nat)
    requires s != [] && AllDigits(s) && (s[0] == '0' ==> |s| == 1)
    requires DigitsValue(s) == n
    ensures s == NatToString(n)
    decreases |s|
  {
    var front, c := s[..|s| - 1], s[|s| - 1];
    if |s| == 1 {
      assert n == DigitValue(c);
      assert s == [c];
    } else {
      var m := DigitsValue(front);
      LeadingDigitPositive(front);
      assert n == m * 10 + DigitValue(c);
      assert n / 10 == m && n % 10 == DigitValue(c);
      CanonicalDigits(front, m);
      assert s == front + [c];
    }
  }

  lemma {:induction false} DigitsValueAppend(a: string, b: string)
    requires AllDigits(a) && AllDigits(b)
    ensures DigitsValue(a + b) == DigitsValue(a) * Pow10(|b|) + DigitsValue(b)
    decreases |b|
  {
    if b == [] {
      assert a + b == a;
    } else {
      var b', d := b[..|b| - 1], b[|b| - 1];
      assert (a + b)[..|a + b| - 1] == a + b';
      DigitsValueAppend(a, b');
      var x, p, y, v := DigitsValue(a), Pow10(|b'|), DigitsValue(b'), DigitValue(d);
      assert DigitsValue(a + b) == DigitsValue(a + b') * 10 + v;
      assert DigitsValue(b) == y * 10 + v;
      assert Pow10(|b|) == p * 10;
      ShiftDigit(x, p, y, v);
    }
  }

  lemma ShiftDigit(x: int, p: int, y: int, v: int)
    ensures (x * p + y) * 10 + v == x * (p * 10) + (y * 10 + v)
  {
  }

  function Zeros(k: nat): (z: string)
    ensures |z| == k && AllDigits(z)
  {
    seq(k, _ => '0')
  }

  /** Left-pads a digit string with zeros to at least `w` characters (the `0w` format). */
  function ZeroPad(s: string, w: nat): (r: string)
  {
    if |s| >= w then s else Zeros(w - |s|) + s
  }

  lemma {:induction false} ZerosValue(k: nat)
    ensures DigitsValue(Zeros(k)) == 0
    decreases k
  {
    if k > 0 {
      assert Zeros(k)[..k - 1] == Zeros(k - 1);
      ZerosValue(k - 1);
    }
  }

  /** Zero padding keeps the value and reaches the width without cutting digits. */
  lemma ZeroPadValue(s: string, w: nat)
    requires AllDigits(s)
    ensures AllDigits(ZeroPad(s, w))
    ensures |ZeroPad(s, w)| == if |s| >= w then |s| else w
    ensures ZeroPad(s, w)[|ZeroPad(s, w)| - |s|..] == s
    ensures DigitsValue(ZeroPad(s, w)) == DigitsValue(s)
  {
    if |s| < w {
      ZerosValue(w - |s|);
      DigitsValueAppend(Zeros(w - |s|), s);
    }
  }
}
