/**
 * Time of day. The source keeps times as "HH:MM" strings and converts them with
 * `timeToMinutes` (TimetableGenerator.tsx, lines 577-580) wherever it compares
 * them; this model keeps every time as the number of minutes since midnight and
 * models the conversion, and its inverse, here.
 */
module Clock {
  import opened Wrappers
  import opened Strings

  /** A `{ start, end }` pair of the source, in minutes. */
  datatype Window = Window(start: nat, end: nat)

  predicate AllDigits(s: string) {
    forall i :: 0 <= i < |s| ==> '0' <= s[i] <= '9'
  }

  /** Index of the first ':' in `s` at or after `k`, or |s| when there is none. */
  function FindColon(s: string, k: nat): (r: nat)
    requires k <= |s|
    ensures k <= r <= |s|
    ensures r < |s| ==> s[r] == ':'
    ensures forall j :: k <= j < r ==> s[j] != ':'
    decreases |s| - k
  {
    if k == |s| then |s| else if s[k] == ':' then k else FindColon(s, k + 1)
  }

  /**
   * `Number(field)` on the forms modelled: white space at either end is
   * dropped, what is left is 0 when blank and its value when decimal digits.
   */
  function FieldNumber(f: string): Option<nat>
    decreases |f|
  {
    if f != [] && IsWhitespace(f[0]) then FieldNumber(f[1..])
    else if f != [] && IsWhitespace(f[|f| - 1]) then FieldNumber(f[..|f| - 1])
    else if AllDigits(f) then Some(DigitsValue(f))
    else None
  }

  /** `FieldNumber` reads the field as `Number` does: it trims the field, then reads the digits. */
  lemma {:induction false} FieldNumberOfTrim(f: string)
    ensures FieldNumber(f) == if AllDigits(Trim(f)) then Some(DigitsValue(Trim(f))) else None
    decreases |f|
  {
    if f != [] && IsWhitespace(f[0]) {
      FieldNumberOfTrim(f[1..]);
      assert TrimStart(f) == TrimStart(f[1..]);
    } else if f != [] && IsWhitespace(f[|f| - 1]) {
      var g := f[..|f| - 1];
      FieldNumberOfTrim(g);
      assert g != [];
      assert g[0] == f[0];
      assert TrimStart(f) == f && TrimStart(g) == g;
      assert Trim(f) == f[..KeptLength(f)] == g[..KeptLength(g)] == Trim(g);
    } else if f != [] {
      assert TrimStart(f) == f;
      assert Trim(f) == f;
    }
  }

  /**
   * `timeToMinutes`: `split(':')` cuts the string at every ':', the first field
   * counts hours, the second minutes and any further field is ignored. Without a
   * ':' there is no minute field and the sum is NaN, which is None here; so is a
   * field `Number` reads as NaN.
   */
  function TimeToMinutes(s: string): Option<nat> {
    var i := FindColon(s, 0);
    if i == |s| then None
    else HoursAndMinutes(s[..i], s[i + 1..FindColon(s, i + 1)])
  }

  /** hours * 60 + minutes, when both fields are numbers. */
  function HoursAndMinutes(h: string, m: string): Option<nat> {
    var hours := FieldNumber(h);
    var minutes := FieldNumber(m);
    if hours.Some? && minutes.Some? then Some(hours.value * 60 + minutes.value) else None
  }

  lemma HoursAndMinutesOf(h: string, m: string, hours: nat, minutes: nat)
    requires FieldNumber(h) == Some(hours) && FieldNumber(m) == Some(minutes)
    ensures HoursAndMinutes(h, m) == Some(hours * 60 + minutes)
  {
  }

  /** The first ':' from `k` on is at `r`. */
  lemma ColonAt(s: string, k: nat, r: nat)
    requires k <= r <= |s| && (r < |s| ==> s[r] == ':')
    requires forall j :: k <= j < r ==> s[j] != ':'
    ensures FindColon(s, k) == r
  {
  }

  /** A string without ':' has no minute field. */
  lemma TimeToMinutesNeedsColon(s: string)
    requires ':' !in s
    ensures TimeToMinutes(s) == None
  {
    forall j | 0 <= j < |s|
      ensures s[j] != ':'
    {
      assert s[j] in s;
    }
    ColonAt(s, 0, |s|);
  }

  /** The hours field is the text before the first ':', the minutes field the text after it. */
  lemma {:induction false} TimeToMinutesOfFields(h: string, m: string)
    requires ':' !in h && ':' !in m
    ensures TimeToMinutes(h + ":" + m) == HoursAndMinutes(h, m)
  {
    FieldsAt(h + ":" + m, h, m);
  }

  /** The minutes field ends at the second ':'; what follows it is ignored. */
  lemma {:induction false} TimeToMinutesIgnoresTail(h: string, m: string, tail: string)
    requires ':' !in h && ':' !in m
    ensures TimeToMinutes(h + ":" + m + ":" + tail) == TimeToMinutes(h + ":" + m)
  {
    FieldsAt(h + ":" + m + ":" + tail, h, m);
    FieldsAt(h + ":" + m, h, m);
  }

  lemma {:induction false} FieldsAt(s: string, h: string, m: string)
    requires ':' !in h && ':' !in m
    requires |h| + 1 + |m| <= |s| && s[..|h|] == h && s[|h|] == ':' && s[|h| + 1..|h| + 1 + |m|] == m
    requires |h| + 1 + |m| < |s| ==> s[|h| + 1 + |m|] == ':'
    ensures TimeToMinutes(s) == HoursAndMinutes(h, m)
  {
    forall j | 0 <= j < |h|
      ensures s[j] != ':'
    {
      assert s[j] == h[j];
      assert h[j] in h;
    }
    ColonAt(s, 0, |h|);
    forall j | |h| + 1 <= j < |h| + 1 + |m|
      ensures s[j] != ':'
    {
      assert s[j] == m[j - |h| - 1];
      assert m[j - |h| - 1] in m;
    }
    ColonAt(s, |h| + 1, |h| + 1 + |m|);
    TimeToMinutesAt(s, |h|, |h| + 1 + |m|);
  }

  lemma TimeToMinutesAt(s: string, i: nat, j: nat)
    requires i < |s| && FindColon(s, 0) == i && FindColon(s, i + 1) == j
    ensures TimeToMinutes(s) == HoursAndMinutes(s[..i], s[i + 1..j])
  {
  }

  lemma DigitsHaveNoColon(s: string)
    requires AllDigits(s)
    ensures ':' !in s
  {
    forall k | 0 <= k < |s|
      ensures s[k] != ':'
    {
      assert '0' <= s[k] <= '9';
    }
  }

  lemma FieldNumberOfDigits(f: string)
    requires AllDigits(f)
    ensures FieldNumber(f) == Some(DigitsValue(f))
  {
    if f != [] {
      assert !IsWhitespace(f[0]) && !IsWhitespace(f[|f| - 1]);
    }
  }

  lemma HoursAndMinutesOfDigits(h: string, m: string)
    requires AllDigits(h) && AllDigits(m)
    ensures HoursAndMinutes(h, m) == Some(DigitsValue(h) * 60 + DigitsValue(m))
  {
    FieldNumberOfDigits(h);
    FieldNumberOfDigits(m);
    HoursAndMinutesOf(h, m, DigitsValue(h), DigitsValue(m));
  }

  /** "HH:MM" with digit fields is HH * 60 + MM. */
  lemma {:induction false} TimeToMinutesOfParts(h: string, m: string)
    requires AllDigits(h) && AllDigits(m)
    ensures TimeToMinutes(h + ":" + m) == Some(DigitsValue(h) * 60 + DigitsValue(m))
  {
    DigitsHaveNoColon(h);
    DigitsHaveNoColon(m);
    TimeToMinutesOfFields(h, m);
    HoursAndMinutesOfDigits(h, m);
  }

  /** A missing hours field counts as 0: ":MM" is MM. */
  lemma TimeToMinutesNoHours(m: string)
    requires AllDigits(m)
    ensures TimeToMinutes(":" + m) == Some(DigitsValue(m))
  {
    DigitsHaveNoColon(m);
    TimeToMinutesOfFields("", m);
    assert "" + ":" + m == ":" + m;
    HoursAndMinutesOfDigits("", m);
  }

  /** A missing minutes field counts as 0: "HH:" is HH * 60. */
  lemma TimeToMinutesNoMinutes(h: string)
    requires AllDigits(h)
    ensures TimeToMinutes(h + ":") == Some(DigitsValue(h) * 60)
  {
    DigitsHaveNoColon(h);
    TimeToMinutesOfFields(h, "");
    assert h + ":" + "" == h + ":";
    HoursAndMinutesOfDigits(h, "");
  }

  /** Text made only of the characters `trim` removes. */
  predicate Blank(s: string) {
    forall i :: 0 <= i < |s| ==> IsWhitespace(s[i])
  }

  /** White space around the digits of a field is dropped. */
  lemma {:induction false} FieldNumberPadded(w: string, f: string, w': string)
    requires Blank(w) && AllDigits(f) && Blank(w')
    ensures FieldNumber(w + f + w') == Some(DigitsValue(f))
    decreases |w| + |w'|
  {
    var s := w + f + w';
    if w != [] {
      assert s[0] == w[0] && s[1..] == w[1..] + f + w';
      DropFirst(s);
      FieldNumberPadded(w[1..], f, w');
    } else if w' != [] && f == [] {
      assert s == w' && s[1..] == [] + [] + w'[1..];
      DropFirst(s);
      FieldNumberPadded([], [], w'[1..]);
    } else if w' != [] {
      assert s == f + w' && s[0] == f[0] && s[|s| - 1] == w'[|w'| - 1];
      assert s[..|s| - 1] == [] + f + w'[..|w'| - 1];
      DropLast(s);
      FieldNumberPadded([], f, w'[..|w'| - 1]);
    } else {
      assert s == f;
      FieldNumberOfDigits(f);
    }
  }

  lemma DropFirst(s: string)
    requires s != [] && IsWhitespace(s[0])
    ensures FieldNumber(s) == FieldNumber(s[1..])
  {
  }

  lemma DropLast(s: string)
    requires s != [] && !IsWhitespace(s[0]) && IsWhitespace(s[|s| - 1])
    ensures FieldNumber(s) == FieldNumber(s[..|s| - 1])
  {
  }

  lemma PaddedHasNoColon(w: string, f: string, w': string)
    requires Blank(w) && AllDigits(f) && Blank(w')
    ensures ':' !in w + f + w'
  {
    var s := w + f + w';
    forall k | 0 <= k < |s|
      ensures s[k] != ':'
    {
      if k < |w| {
        assert s[k] == w[k] && IsWhitespace(w[k]);
      } else if k < |w| + |f| {
        assert s[k] == f[k - |w|] && '0' <= f[k - |w|] <= '9';
      } else {
        assert s[k] == w'[k - |w| - |f|] && IsWhitespace(w'[k - |w| - |f|]);
      }
    }
  }

  /** White space around either field is dropped: " 9 : 30 " reads as 9:30. */
  lemma TimeToMinutesPadded(w1: string, h: string, w2: string, w3: string, m: string, w4: string)
    requires Blank(w1) && AllDigits(h) && Blank(w2) && Blank(w3) && AllDigits(m) && Blank(w4)
    ensures TimeToMinutes(w1 + h + w2 + ":" + (w3 + m + w4)) == Some(DigitsValue(h) * 60 + DigitsValue(m))
  {
    PaddedHasNoColon(w1, h, w2);
    PaddedHasNoColon(w3, m, w4);
    TimeToMinutesOfFields(w1 + h + w2, w3 + m + w4);
    PaddedFields(w1, h, w2, w3, m, w4);
  }

  lemma PaddedFields(w1: string, h: string, w2: string, w3: string, m: string, w4: string)
    requires Blank(w1) && AllDigits(h) && Blank(w2) && Blank(w3) && AllDigits(m) && Blank(w4)
    ensures HoursAndMinutes(w1 + h + w2, w3 + m + w4) == Some(DigitsValue(h) * 60 + DigitsValue(m))
  {
    FieldNumberPadded(w1, h, w2);
    FieldNumberPadded(w3, m, w4);
    HoursAndMinutesOf(w1 + h + w2, w3 + m + w4, DigitsValue(h), DigitsValue(m));
  }

  /** A field `Number` cannot read makes the whole time undefined. */
  lemma TimeToMinutesNotANumber(h: string, m: string)
    requires ':' !in h && ':' !in m
    requires FieldNumber(h).None? || FieldNumber(m).None?
    ensures TimeToMinutes(h + ":" + m) == None
  {
    TimeToMinutesOfFields(h, m);
  }

  /** Two decimal digits, zero-padded. */
  function Pad2(n: nat): (r: string)
    requires n < 100
    ensures |r| == 2 && AllDigits(r)
  {
    [DigitChar(n / 10), DigitChar(n % 10)]
  }

  /** The "HH:MM" text of a time of day (times before 100:00). */
  function FormatTime(t: nat): string
    requires t < 6000
  {
    Pad2(t / 60) + ":" + Pad2(t % 60)
  }

  lemma Pad2Value(n: nat)
    requires n < 100
    ensures DigitsValue(Pad2(n)) == n
  {
    var r := Pad2(n);
    assert r[..1] == [DigitChar(n / 10)];
    assert r[..1][..0] == [];
    assert DigitChar(n / 10) as int - '0' as int == n / 10;
    assert DigitChar(n % 10) as int - '0' as int == n % 10;
    assert DigitsValue(r[..1]) == n / 10;
  }

  /** Reading back a formatted time gives the time: `timeToMinutes` inverts the "HH:MM" notation. */
  lemma {:induction false} TimeToMinutesOfFormat(t: nat)
    requires t < 6000
    ensures TimeToMinutes(FormatTime(t)) == Some(t)
  {
    var h, m := Pad2(t / 60), Pad2(t % 60);
    Pad2Value(t / 60);
    Pad2Value(t % 60);
    assert DigitsValue(h) * 60 + DigitsValue(m) == t;
    assert FormatTime(t) == h + ":" + m;
    TimeToMinutesOfParts(h, m);
  }

  /** The strict half-open overlap test of `timeSlotsOverlap`: start1 < end2 && start2 < end1. */
  predicate Overlap(a: Window, b: Window) {
    a.start < b.end && b.start < a.end
  }

  /** Minute `t` lies inside the half-open window [start, end). */
  predicate Covers(w: Window, t: nat) {
    w.start <= t < w.end
  }

  /** Overlap is symmetric. */
  lemma OverlapSymmetric(a: Window, b: Window)
    ensures Overlap(a, b) <==> Overlap(b, a)
  {
  }

  /** Windows that merely touch (one ends when the other starts) do not overlap. */
  lemma TouchingDoesNotOverlap(a: Window, b: Window)
    requires a.end <= b.start
    ensures !Overlap(a, b) && !Overlap(b, a)
  {
  }

  /**
   * Overlap, read against an independent definition: two windows that are not
   * empty overlap exactly when they share a minute.
   */
  lemma OverlapIffSharedMinute(a: Window, b: Window)
    requires a.start < a.end && b.start < b.end
    ensures Overlap(a, b) <==> exists t: nat :: Covers(a, t) && Covers(b, t)
  {
    if Overlap(a, b) {
      var t := if a.start < b.start then b.start else a.start;
      assert Covers(a, t) && Covers(b, t);
    }
  }
}
