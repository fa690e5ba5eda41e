/**
 * The few Python `str` operations the assistant relies on, written out over
 * `seq<char>`: `isspace`, ASCII `lower`, `strip`, the `in` substring test,
 * argument-less `split`, `join`, and decimal digits for `int(...)` / `str(...)`.
 */
module Text {

  /** Python's `str.isspace` for one character (the full list CPython uses). */
  predicate IsSpace(c: char) {
    || c == ' '
    || ('\t' <= c <= '\r')
    || ('\U{1C}' <= c <= '\U{1F}')
    || c == '\U{85}' || c == '\U{A0}' || c == '\U{1680}'
    || ('\U{2000}' <= c <= '\U{200A}')
    || c == '\U{2028}' || c == '\U{2029}' || c == '\U{202F}' || c == '\U{205F}'
    || c == '\U{3000}'
  }

  predicate NoSpace(s: string) {
    forall i :: 0 <= i < |s| ==> !IsSpace(s[i])
  }

  // ---------------------------------------------------------------- lower

  function LowerChar(c: char): char {
    if 'A' <= c <= 'Z' then (c as int - 'A' as int + 'a' as int) as char else c
  }

  /** `s.lower()` on the ASCII letters. */
  function Lower(s: string): (r: string)
    ensures |r| == |s|
    ensures forall i :: 0 <= i < |s| ==> r[i] == LowerChar(s[i])
  {
    if s == [] then [] else [LowerChar(s[0])] + Lower(s[1..])
  }

  // ---------------------------------------------------------------- strip

  /** Index of the first non-whitespace character of `s` at or after `i` (or `|s|`). */
  function SkipLeading(s: string, i: nat): (r: nat)
    requires i <= |s|
    ensures i <= r <= |s|
    ensures forall k :: i <= k < r ==> IsSpace(s[k])
    ensures r < |s| ==> !IsSpace(s[r])
    decreases |s| - i
  {
    if i < |s| && IsSpace(s[i]) then SkipLeading(s, i + 1) else i
  }

  /** End of `s[lo..j]` once its trailing whitespace is dropped. */
  function SkipTrailing(s: string, lo: nat, j: nat): (r: nat)
    requires lo <= j <= |s|
    ensures lo <= r <= j
    ensures forall k :: r <= k < j ==> IsSpace(s[k])
    ensures lo < r ==> !IsSpace(s[r - 1])
  {
    if lo < j && IsSpace(s[j - 1]) then SkipTrailing(s, lo, j - 1) else j
  }

  /** `s.strip()`: drop leading, then trailing whitespace. */
  function Strip(s: string): string {
    var a := SkipLeading(s, 0);
    s[a..SkipTrailing(s, a, |s|)]
  }

  /** Strip cuts out a middle slice whose two ends are whitespace only. */
  lemma StripSlice(s: string) returns (a: nat, b: nat)
    ensures a <= b <= |s| && Strip(s) == s[a..b]
    ensures forall k :: 0 <= k < a ==> IsSpace(s[k])
    ensures forall k :: b <= k < |s| ==> IsSpace(s[k])
    ensures a < b ==> !IsSpace(s[a]) && !IsSpace(s[b - 1])
  {
    a := SkipLeading(s, 0);
    b := SkipTrailing(s, a, |s|);
  }

  // ---------------------------------------------------------------- substring

  /** Python's `p in s` on strings. */
  function Contains(s: string, p: string): bool
    decreases |s|
  {
    if |s| < |p| then false
    else if s[..|p|] == p then true
    else s != [] && Contains(s[1..], p)
  }

  /** `p` occurs in `s` starting at index `i`. */
  ghost predicate OccursAt(s: string, p: string, i: int) {
    0 <= i && i + |p| <= |s| && s[i..i + |p|] == p
  }

  /** The recursive substring test agrees with "occurs at some index". */
  lemma {:induction false} ContainsAt(s: string, p: string)
    ensures Contains(s, p) <==> exists i :: OccursAt(s, p, i)
    decreases |s|
  {
    if |s| < |p| {
    } else if s[..|p|] == p {
      assert OccursAt(s, p, 0);
    } else if s != [] {
      ContainsAt(s[1..], p);
      if Contains(s, p) {
        var i :| OccursAt(s[1..], p, i);
        assert s[1..][i..i + |p|] == s[i + 1..i + 1 + |p|];
        assert OccursAt(s, p, i + 1);
      }
      if exists i :: OccursAt(s, p, i) {
        var i :| OccursAt(s, p, i);
        assert i != 0;
        assert s[1..][i - 1..i - 1 + |p|] == s[i..i + |p|];
        assert OccursAt(s[1..], p, i - 1);
      }
    }
  }

  /**
   * Stripping whitespace from the ends never creates or destroys an occurrence
   * of a pattern that itself starts and ends with a non-whitespace character.
   */
  lemma StripKeepsContains(s: string, p: string)
    requires |p| > 0 && !IsSpace(p[0]) && !IsSpace(p[|p| - 1])
    ensures Contains(Strip(s), p) <==> Contains(s, p)
  {
    var a, b := StripSlice(s);
    ContainsAt(s[a..b], p);
    ContainsAt(s, p);
    if Contains(s[a..b], p) {
      var i :| OccursAt(s[a..b], p, i);
      SliceOccurs(s, a, b, p, i);
    }
    if Contains(s, p) {
      var j :| OccursAt(s, p, j);
      assert s[j] == p[0] && s[j + |p| - 1] == p[|p| - 1];
      OccursInSlice(s, a, b, p, j);
    }
  }

  lemma SliceOccurs(s: string, a: nat, b: nat, p: string, i: int)
    requires a <= b <= |s| && OccursAt(s[a..b], p, i)
    ensures OccursAt(s, p, a + i)
  {
    var t := s[a..b];
    forall k | 0 <= k < |p| ensures s[a + i + k] == p[k] {
      assert t[i..i + |p|][k] == t[i + k] == s[a + i + k];
    }
    assert s[a + i..a + i + |p|] == p;
  }

  lemma OccursInSlice(s: string, a: nat, b: nat, p: string, j: int)
    requires a <= b <= |s| && OccursAt(s, p, j) && a <= j && j + |p| <= b
    ensures OccursAt(s[a..b], p, j - a)
  {
    var t := s[a..b];
    forall k | 0 <= k < |p| ensures t[j - a + k] == p[k] {
      assert s[j..j + |p|][k] == s[j + k] == t[j - a + k];
    }
    assert t[j - a..j - a + |p|] == p;
  }

  // ---------------------------------------------------------------- split / join

  /** A token of `str.split()`: non-empty and free of whitespace. */
  predicate IsToken(w: string) {
    w != [] && NoSpace(w)
  }

  /** `str.split()` scanning `s` while `cur` holds the token read so far. */
  function SplitFrom(s: string, cur: string): (r: seq<string>)
    requires NoSpace(cur)
    ensures forall k :: 0 <= k < |r| ==> IsToken(r[k])
    decreases |s|
  {
    if s == [] then
      (if cur == [] then [] else [cur])
    else if IsSpace(s[0]) then
      (if cur == [] then SplitFrom(s[1..], []) else [cur] + SplitFrom(s[1..], []))
    else
      SplitFrom(s[1..], cur + [s[0]])
  }

  /** `s.split()`: the maximal runs of non-whitespace characters, in order. */
  function Split(s: string): (r: seq<string>)
    ensures forall k :: 0 <= k < |r| ==> IsToken(r[k])
  {
    SplitFrom(s, [])
  }

  function Concat(ws: seq<string>): string {
    if ws == [] then [] else ws[0] + Concat(ws[1..])
  }

  function RemoveSpaces(s: string): string {
    if s == [] then [] else (if IsSpace(s[0]) then [] else [s[0]]) + RemoveSpaces(s[1..])
  }

  lemma {:induction false} SplitFromConcat(s: string, cur: string)
    requires NoSpace(cur)
    ensures Concat(SplitFrom(s, cur)) == cur + RemoveSpaces(s)
    decreases |s|
  {
    if s == [] {
      assert Concat([cur]) == cur + Concat([]);
    } else if IsSpace(s[0]) {
      SplitFromConcat(s[1..], []);
      if cur != [] {
        var rest := SplitFrom(s[1..], []);
        assert ([cur] + rest)[1..] == rest;
      }
    } else {
      SplitFromConcat(s[1..], cur + [s[0]]);
    }
  }

  /** Splitting loses exactly the whitespace: the tokens glued together give the non-space characters. */
  lemma SplitLosesOnlySpaces(s: string)
    ensures Concat(Split(s)) == RemoveSpaces(s)
  {
    SplitFromConcat(s, []);
  }

  /** `sep.join(ws)`. */
  function Join(ws: seq<string>, sep: string): string {
    if ws == [] then []
    else if |ws| == 1 then ws[0]
    else ws[0] + sep + Join(ws[1..], sep)
  }

  lemma JoinCons(x: string, rest: seq<string>, sep: string)
    ensures Join([x] + rest, sep) == if rest == [] then x else x + sep + Join(rest, sep)
  {
    assert ([x] + rest)[1..] == rest;
  }

  /** `filter(None, parts)`: drop the empty strings. */
  function NonEmpty(parts: seq<string>): seq<string> {
    if parts == [] then []
    else (if parts[0] == [] then [] else [parts[0]]) + NonEmpty(parts[1..])
  }

  lemma NonEmptyCons(x: string, rest: seq<string>)
    ensures NonEmpty([x] + rest) == (if x == [] then [] else [x]) + NonEmpty(rest)
  {
    assert ([x] + rest)[1..] == rest;
  }

  /** Without empty strings there is nothing for `filter(None, …)` to drop. */
  lemma {:induction false} NonEmptyKeepsAll(parts: seq<string>)
    requires forall k :: 0 <= k < |parts| ==> parts[k] != []
    ensures NonEmpty(parts) == parts
  {
    if parts != [] {
      NonEmptyKeepsAll(parts[1..]);
      assert parts == [parts[0]] + parts[1..];
    }
  }

  lemma {:induction false} SplitFromToken(w: string, rest: string, cur: string)
    requires NoSpace(cur) && NoSpace(w)
    ensures SplitFrom(w + rest, cur) == SplitFrom(rest, cur + w)
    decreases |w|
  {
    if w == [] {
      assert w + rest == rest;
      assert cur + w == cur;
    } else {
      assert (w + rest)[0] == w[0];
      assert (w + rest)[1..] == w[1..] + rest;
      SplitFromToken(w[1..], rest, cur + [w[0]]);
      assert cur + [w[0]] + w[1..] == cur + w;
    }
  }

  /** Joining tokens with one space and splitting again gives the tokens back. */
  lemma {:induction false} SplitJoin(ws: seq<string>)
    requires forall k :: 0 <= k < |ws| ==> IsToken(ws[k])
    ensures Split(Join(ws, " ")) == ws
  {
    if ws == [] {
    } else if |ws| == 1 {
      SplitFromToken(ws[0], [], []);
      assert ws[0] + [] == ws[0];
      assert [] + ws[0] == ws[0];
      assert ws == [ws[0]];
    } else {
      var w := ws[0];
      var tail := Join(ws[1..], " ");
      assert Join(ws, " ") == w + (" " + tail);
      SplitFromToken(w, " " + tail, []);
      assert [] + w == w;
      assert (" " + tail)[1..] == tail;
      SplitJoin(ws[1..]);
      assert ws == [w] + ws[1..];
    }
  }

  /**
   * Scanning a space-joined sequence of whitespace-free words, some of them
   * possibly empty, with `cur` already read: the first word is glued to `cur`
   * and the empty words vanish.
   */
  lemma {:induction false} SplitJoinFrom(vs: seq<string>, cur: string)
    requires vs != [] && NoSpace(cur)
    requires forall k :: 0 <= k < |vs| ==> NoSpace(vs[k])
    ensures SplitFrom(Join(vs, " "), cur) == NonEmpty([cur + vs[0]] + vs[1..])
    decreases |vs|
  {
    var w := vs[0];
    assert NoSpace(cur + w) by {
      forall i | 0 <= i < |cur + w| ensures !IsSpace((cur + w)[i]) {
        if i >= |cur| { assert (cur + w)[i] == w[i - |cur|]; }
      }
    }
    if |vs| == 1 {
      SplitFromToken(w, [], cur);
      assert w + [] == w;
      NonEmptyCons(cur + w, []);
      assert [cur + w] + vs[1..] == [cur + w] + [];
    } else {
      var tail := Join(vs[1..], " ");
      assert Join(vs, " ") == w + (" " + tail);
      SplitFromToken(w, " " + tail, cur);
      assert (" " + tail)[0] == ' ' && (" " + tail)[1..] == tail;
      var rest := vs[1..];
      SplitJoinFrom(rest, []);
      assert [] + rest[0] == rest[0];
      assert [rest[0]] + rest[1..] == rest;
      NonEmptyCons(cur + w, rest);
    }
  }

  /**
   * Joining whitespace-free words with one space and splitting again gives the
   * words back, without the empty ones.
   */
  lemma SplitJoinNonEmpty(vs: seq<string>)
    requires forall k :: 0 <= k < |vs| ==> NoSpace(vs[k])
    ensures Split(Join(vs, " ")) == NonEmpty(vs)
  {
    if vs != [] {
      SplitJoinFrom(vs, []);
      assert [] + vs[0] == vs[0];
      assert [vs[0]] + vs[1..] == vs;
    }
  }

  // ---------------------------------------------------------------- digits

  /** The `\d` class on ASCII digits. */
  predicate IsDigit(c: char) {
    '0' <= c <= '9'
  }

  predicate AllDigits(s: string) {
    forall i :: 0 <= i < |s| ==> IsDigit(s[i])
  }

  /** `int(d)` for a string of decimal digits. */
  function DigitsValue(d: string): nat
    requires AllDigits(d)
  {
    if d == [] then 0 else DigitsValue(d[..|d| - 1]) * 10 + (d[|d| - 1] as int - '0' as int)
  }

  /** The form `str(n)` prints: digits only, and no leading zero unless it is `"0"`. */
  predicate IsCanonicalDecimal(d: string) {
    d != [] && AllDigits(d) && (d[0] == '0' ==> |d| == 1)
  }

  /** `str(n)` for a natural number. */
  function NatToDecimal(n: nat): (r: string)
    ensures IsCanonicalDecimal(r)
    ensures n > 0 ==> r[0] != '0'
  {
    if n < 10 then [('0' as int + n) as char]
    else NatToDecimal(n / 10) + [('0' as int + n % 10) as char]
  }

  /** `int(str(n)) == n`. */
  lemma {:induction false} DecimalRoundTrip(n: nat)
    ensures DigitsValue(NatToDecimal(n)) == n
  {
    if n >= 10 {
      var d := NatToDecimal(n);
      DecimalRoundTrip(n / 10);
      assert d[..|d| - 1] == NatToDecimal(n / 10);
    }
  }

  lemma {:induction false} PositiveValue(d: string)
    requires d != [] && AllDigits(d) && d[0] != '0'
    ensures DigitsValue(d) > 0
    decreases |d|
  {
    if |d| > 1 {
      PositiveValue(d[..|d| - 1]);
    }
  }

  /** `str(int(d)) == d` when `d` already has the printed form. */
  lemma {:induction false} CanonicalRoundTrip(d: string)
    requires IsCanonicalDecimal(d)
    ensures NatToDecimal(DigitsValue(d)) == d
    decreases |d|
  {
    if |d| > 1 {
      var init := d[..|d| - 1];
      assert init[0] == d[0];
      PositiveValue(init);
      CanonicalRoundTrip(init);
      assert d == init + [d[|d| - 1]];
    }
  }

  /** Drop leading zeros, keeping a single `"0"` when every digit is a zero. */
  function StripLeadingZeros(d: string): (r: string)
    requires d != [] && AllDigits(d)
    ensures IsCanonicalDecimal(r)
  {
    if |d| > 1 && d[0] == '0' then StripLeadingZeros(d[1..]) else d
  }

  lemma {:induction false} LeadingZeroValue(t: string)
    requires AllDigits(t)
    ensures DigitsValue("0" + t) == DigitsValue(t)
    decreases |t|
  {
    if t != [] {
      var s := "0" + t;
      assert s[..|s| - 1] == "0" + t[..|t| - 1];
      LeadingZeroValue(t[..|t| - 1]);
    }
  }

  lemma {:induction false} StripLeadingZerosValue(d: string)
    requires d != [] && AllDigits(d)
    ensures DigitsValue(StripLeadingZeros(d)) == DigitsValue(d)
    decreases |d|
  {
    if |d| > 1 && d[0] == '0' {
      StripLeadingZerosValue(d[1..]);
      assert d == "0" + d[1..];
      LeadingZeroValue(d[1..]);
    }
  }

  /** `str(int(d))` is `d` with its leading zeros removed. */
  lemma ParseThenPrint(d: string)
    requires d != [] && AllDigits(d)
    ensures NatToDecimal(DigitsValue(d)) == StripLeadingZeros(d)
  {
    StripLeadingZerosValue(d);
    CanonicalRoundTrip(StripLeadingZeros(d));
  }

  /** Index of the first digit of `s`, or `|s|` when there is none. */
  function FirstDigitIndex(s: string): (i: nat)
    ensures i <= |s|
    ensures forall k :: 0 <= k < i ==> !IsDigit(s[k])
    ensures i < |s| ==> IsDigit(s[i])
  {
    if s == [] || IsDigit(s[0]) then 0 else 1 + FirstDigitIndex(s[1..])
  }

  /** Length of the run of digits at the front of `s`. */
  function DigitPrefixLength(s: string): (n: nat)
    ensures n <= |s|
    ensures forall k :: 0 <= k < n ==> IsDigit(s[k])
    ensures n < |s| ==> !IsDigit(s[n])
  {
    if s != [] && IsDigit(s[0]) then 1 + DigitPrefixLength(s[1..]) else 0
  }
}
