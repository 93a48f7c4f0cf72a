/**
 * Reading a speed limit and an optional time range out of OCR text
 * (python-container/src/speed_detector/pipeline/ocr.py, `OCRResult` and
 * `SpeedOCR._parse_speed_limit`). `ParsedSpeedLimit` says what the parser
 * returns; the method `ParseSpeedLimit` is proved to return it.
 */
module Ocr {
  import opened Wrappers
  import opened Text
  import opened State

  /** The legal speed limits in Japan; any other reading is discarded. */
  const ValidSpeedLimits: set<int> := {20, 30, 40, 50, 60, 70, 80, 100, 120}

  /** `OCRResult`. */
  datatype OcrResult = OcrResult(
    speedLimit: int,
    confidence: real,
    timeCondition: Option<TimeCondition>,
    rawText: string)

  /** One `(bbox, text, confidence)` entry the OCR reader returned; the box is not used. */
  datatype OcrFragment = OcrFragment(text: string, confidence: real)

  /**
   * `re.search` for the time-range pattern: the leftmost position at or after
   * `from` where the pattern matches.
   */
  function SearchRange(s: string, from: nat): (r: Option<nat>)
    ensures r.Some? ==> from <= r.value <= |s| && MatchRangeAt(s, r.value).Some?
    ensures r.Some? ==> forall q :: from <= q < r.value ==> MatchRangeAt(s, q).None?
    ensures r.None? ==> forall q :: from <= q <= |s| ==> MatchRangeAt(s, q).None?
    decreases |s| - from
  {
    if from > |s| then None
    else if MatchRangeAt(s, from).Some? then Some(from)
    else SearchRange(s, from + 1)
  }

  /** The characters a time range is written with. */
  predicate RangeChar(c: char) {
    IsDigit(c) || c == ':' || c == '-'
  }

  /** The text a match covers is digits, colons and a dash, and begins and ends with a digit. */
  lemma MatchedRangeChars(s: string, p: nat)
    requires MatchRangeAt(s, p).Some?
    ensures var t := s[p..p + MatchRangeAt(s, p).value.length];
      && (forall x :: 0 <= x < |t| ==> RangeChar(t[x]))
      && IsDigit(t[0]) && IsDigit(t[|t| - 1])
  {
    var t := s[p..p + MatchRangeAt(s, p).value.length];
    var a := HourDigitsAt(s, p);
    var i := p + a;
    var j := if MinutesAt(s, i) then i + 3 else i;
    var b := HourDigitsAt(s, j + 1);
    var k := j + 1 + b;
    var l := if MinutesAt(s, k) then k + 3 else k;
    assert |t| == l - p;
    forall x | 0 <= x < |t|
      ensures RangeChar(t[x])
    {
      assert t[x] == s[p + x];
      if p + x < i {
      } else if p + x < j {
        assert MinutesAt(s, i);
      } else if p + x == j {
      } else if p + x < k {
      } else {
        assert MinutesAt(s, k);
      }
    }
    assert t[0] == s[p];
    assert t[|t| - 1] == s[l - 1];
  }

  /** `t` is the part of `s` that starts at `p`. */
  predicate Window(s: string, t: string, p: nat) {
    p + |t| <= |s| && forall k :: 0 <= k < |t| ==> t[k] == s[p + k]
  }

  /** Hour digits read inside a window `t` of `s` that holds them all are read the same as in `s`. */
  lemma HourDigitsInWindow(s: string, t: string, p: nat, x: nat)
    requires Window(s, t, p)
    requires 0 < HourDigitsAt(s, p + x) && x + HourDigitsAt(s, p + x) <= |t|
    ensures HourDigitsAt(t, x) == HourDigitsAt(s, p + x)
  {
    assert t[x] == s[p + x];
    if x + 1 < |t| {
      assert t[x + 1] == s[p + x + 1];
    }
  }

  /** `:MM` read inside a window `t` of `s` that holds it is read the same as in `s`. */
  lemma MinutesInWindow(s: string, t: string, p: nat, x: nat)
    requires Window(s, t, p)
    requires x <= |t| && (MinutesAt(s, p + x) ==> x + 3 <= |t|)
    ensures MinutesAt(t, x) == MinutesAt(s, p + x)
  {
    if x + 3 <= |t| {
      assert t[x] == s[p + x] && t[x + 1] == s[p + x + 1] && t[x + 2] == s[p + x + 2];
    }
  }

  /** A number read inside a window `t` of `s` is the number read in `s`. */
  lemma {:induction false} SliceValueInWindow(s: string, t: string, p: nat, x: nat, y: nat)
    requires x <= y <= |t| && Window(s, t, p)
    ensures SliceValue(t, x, y) == SliceValue(s, p + x, p + y)
    decreases y - x
  {
    if x < y {
      SliceValueInWindow(s, t, p, x, y - 1);
      assert t[y - 1] == s[p + y - 1];
    }
  }

  /** The window of `s` from `p` to the end of the match has the same shape at 0. */
  lemma ShapeInWindow(s: string, t: string, p: nat, a: nat, m1: bool, b: nat, m2: bool, j: nat, k: nat, l: nat)
    requires RangeShape(s, p, a, m1, b, m2)
    requires j == p + a + (if m1 then 3 else 0) && k == j + 1 + b && l == k + (if m2 then 3 else 0)
    requires l <= |s| && |t| == l - p && Window(s, t, p)
    ensures RangeShape(t, 0, a, m1, b, m2)
  {
    HourDigitsInWindow(s, t, p, 0);
    MinutesInWindow(s, t, p, a);
    assert t[j - p] == s[j];
    HourDigitsInWindow(s, t, p, j - p + 1);
    MinutesInWindow(s, t, p, k - p);
  }

  /** The numbers of a match read in that window are the ones read in `s`. */
  lemma ValuesInWindow(s: string, t: string, p: nat, a: nat, m1: bool, b: nat, m2: bool, i: nat, j: nat, k: nat, l: nat)
    requires RangeShape(s, p, a, m1, b, m2)
    requires i == p + a && j == i + (if m1 then 3 else 0) && k == j + 1 + b && l == k + (if m2 then 3 else 0)
    requires l <= |s| && |t| == l - p && Window(s, t, p)
    ensures RangeShape(t, 0, a, m1, b, m2)
    ensures SliceValue(t, 0, a) == SliceValue(s, p, i)
    ensures SliceValue(t, j - p + 1, k - p) == SliceValue(s, j + 1, k)
    ensures m1 ==> SliceValue(t, a + 1, a + 3) == SliceValue(s, i + 1, i + 3)
    ensures m2 ==> SliceValue(t, k - p + 1, k - p + 3) == SliceValue(s, k + 1, k + 3)
  {
    ShapeInWindow(s, t, p, a, m1, b, m2, j, k, l);
    SliceValueInWindow(s, t, p, 0, a);
    SliceValueInWindow(s, t, p, j - p + 1, k - p);
    if m1 {
      SliceValueInWindow(s, t, p, a + 1, a + 3);
    }
    if m2 {
      SliceValueInWindow(s, t, p, k - p + 1, k - p + 3);
    }
  }

  /** The pattern matched against a window that ends where the match ends finds what it found in `s`. */
  lemma MatchInWindow(s: string, p: nat, a: nat, m1: bool, b: nat, m2: bool, i: nat, j: nat, k: nat, l: nat)
    requires RangeShape(s, p, a, m1, b, m2)
    requires i == p + a && j == i + (if m1 then 3 else 0) && k == j + 1 + b && l == k + (if m2 then 3 else 0)
    requires l <= |s|
    ensures MatchRangeAt(s[p..l], 0) == Some(RangeMatch(
      l - p,
      SliceValue(s, p, i),
      if m1 then Some(SliceValue(s, i + 1, i + 3)) else None,
      SliceValue(s, j + 1, k),
      if m2 then Some(SliceValue(s, k + 1, k + 3)) else None))
  {
    var t := s[p..l];
    assert Window(s, t, p);
    ValuesInWindow(s, t, p, a, m1, b, m2, i, j, k, l);
    MatchOfShape(t, 0, a, m1, b, m2, a, j - p, k - p, l - p);
  }

  /** The pattern matched against the matched text alone finds the same groups. */
  lemma MatchedRangeAlone(s: string, p: nat)
    requires MatchRangeAt(s, p).Some?
    ensures var m := MatchRangeAt(s, p).value;
      MatchRangeAt(s[p..p + m.length], 0) == Some(m)
  {
    var a := HourDigitsAt(s, p);
    var i := p + a;
    var m1 := MinutesAt(s, i);
    var j := i + (if m1 then 3 else 0);
    var b := HourDigitsAt(s, j + 1);
    var k := j + 1 + b;
    var m2 := MinutesAt(s, k);
    var l := k + (if m2 then 3 else 0);
    MatchOfShape(s, p, a, m1, b, m2, i, j, k, l);
    MatchInWindow(s, p, a, m1, b, m2, i, j, k, l);
  }

  /** The time range found in the text, what `from_string` makes of it, and the text without it. */
  datatype TimeSplit = TimeSplit(condition: Option<TimeCondition>, timeText: Option<string>, rest: string)

  /**
   * The first step of `_parse_speed_limit` on the stripped text: the leftmost
   * time range is parsed, and every occurrence of its text replaced by a
   * space, whether or not it parsed to a valid condition.
   */
  function SplitTime(text: string): (r: TimeSplit)
    ensures r.timeText.None? <==> SearchRange(text, 0).None?
    ensures r.timeText.None? ==> r.rest == text && r.condition.None?
    ensures r.timeText.Some? ==> 3 <= |r.timeText.value|
    ensures r.timeText.Some? ==> r.rest == ReplaceAll(text, r.timeText.value, " ")
  {
    match SearchRange(text, 0)
    case None => TimeSplit(None, None, text)
    case Some(p) =>
      var ts := text[p..p + MatchRangeAt(text, p).value.length];
      TimeSplit(ConditionOf(MatchRangeAt(text, p).value), Some(ts), ReplaceAll(text, ts, " "))
  }

  /** `from_string` on the text a match covers gives the condition of that match's groups. */
  lemma ConditionOfMatchedText(s: string, p: nat)
    requires MatchRangeAt(s, p).Some?
    ensures var m := MatchRangeAt(s, p).value;
      FromString(s[p..p + m.length]) == ConditionOf(m)
  {
    var m := MatchRangeAt(s, p).value;
    var ts := s[p..p + m.length];
    MatchedRangeChars(s, p);
    StripNoop(ts);
    MatchedRangeAlone(s, p);
  }

  /** The text a match covers has no space in it. */
  lemma NoSpaceInMatchedText(s: string, p: nat)
    requires MatchRangeAt(s, p).Some?
    ensures ' ' !in s[p..p + MatchRangeAt(s, p).value.length]
  {
    var ts := s[p..p + MatchRangeAt(s, p).value.length];
    MatchedRangeChars(s, p);
    forall x | 0 <= x < |ts|
      ensures ts[x] != ' '
    {
      assert RangeChar(ts[x]);
    }
  }

  /**
   * When a time range is found, its condition is the one its groups give
   * (none when an hour or minute is out of range), and no occurrence of its
   * text is left for the number scan.
   */
  lemma TimeRangeRemoved(text: string, p: nat)
    requires SearchRange(text, 0) == Some(p)
    ensures var m := MatchRangeAt(text, p).value;
      var r := SplitTime(text);
      && r.timeText == Some(text[p..p + m.length])
      && r.condition == ConditionOf(m)
      && r.rest == ReplaceAll(text, text[p..p + m.length], " ")
      && !Contains(r.rest, text[p..p + m.length])
  {
    var ts := text[p..p + MatchRangeAt(text, p).value.length];
    assert SplitTime(text).timeText == Some(ts);
    ConditionOfMatchedText(text, p);
    NoSpaceInMatchedText(text, p);
    ReplaceAllRemoves(text, ts);
  }

  /** The first OCR fragment at or after `from` whose text contains `numStr`. */
  function FirstFragmentWith(numStr: string, fragments: seq<OcrFragment>, from: nat): (r: Option<nat>)
    ensures r.Some? ==> from <= r.value < |fragments| && Contains(fragments[r.value].text, numStr)
    ensures r.Some? ==> forall j :: from <= j < r.value ==> !Contains(fragments[j].text, numStr)
    ensures r.None? ==> forall j :: from <= j < |fragments| ==> !Contains(fragments[j].text, numStr)
    decreases |fragments| - from
  {
    if from >= |fragments| then None
    else if Contains(fragments[from].text, numStr) then Some(from)
    else FirstFragmentWith(numStr, fragments, from + 1)
  }

  /** The pick so far: `speed_limit` and `best_confidence`. */
  datatype Pick = Pick(speed: Option<int>, best: real)

  const NoPick: Pick := Pick(None, 0.0)

  /** The confidence a number is credited with: its first fragment's, or 0.5 when no fragment contains it. */
  predicate Justifies(numStr: string, fragments: seq<OcrFragment>, confidence: real) {
    match FirstFragmentWith(numStr, fragments, 0)
    case Some(j) => fragments[j].confidence == confidence
    case None => confidence == 0.5
  }

  /**
   * One pass of the number loop: a valid number replaces the pick only when
   * the first fragment containing it is strictly more confident than the best
   * so far; a valid number no fragment contains is taken, at 0.5, only when
   * nothing is picked yet.
   */
  function PickStep(p: Pick, numStr: string, fragments: seq<OcrFragment>): (r: Pick)
    requires AllDigits(numStr)
    ensures r != p ==>
      && DecimalValue(numStr) in ValidSpeedLimits
      && r.speed == Some(DecimalValue(numStr))
      && Justifies(numStr, fragments, r.best)
      && (FirstFragmentWith(numStr, fragments, 0).Some? ==> r.best > p.best)
      && (FirstFragmentWith(numStr, fragments, 0).None? ==> p.speed.None?)
  {
    var num := DecimalValue(numStr);
    if num !in ValidSpeedLimits then p
    else
      match FirstFragmentWith(numStr, fragments, 0)
      case Some(j) =>
        if fragments[j].confidence > p.best then Pick(Some(num), fragments[j].confidence) else p
      case None =>
        if p.speed.None? then Pick(Some(num), 0.5) else p
  }

  predicate AllNumerals(numbers: seq<string>) {
    forall k :: 0 <= k < |numbers| ==> AllDigits(numbers[k])
  }

  /** The pick after the number loop has run over `numbers`, in order. */
  function PickAll(numbers: seq<string>, fragments: seq<OcrFragment>): Pick
    requires AllNumerals(numbers)
    decreases |numbers|
  {
    if numbers == [] then NoPick
    else PickStep(PickAll(numbers[..|numbers| - 1], fragments), numbers[|numbers| - 1], fragments)
  }

  /** A valid number the OCR fragments credit with `confidence`. */
  predicate FoundWith(numStr: string, fragments: seq<OcrFragment>, confidence: real)
    requires AllDigits(numStr)
  {
    && DecimalValue(numStr) in ValidSpeedLimits
    && FirstFragmentWith(numStr, fragments, 0).Some?
    && fragments[FirstFragmentWith(numStr, fragments, 0).value].confidence == confidence
  }

  /**
   * The number loop picks a valid number with the highest confidence among
   * those found in a fragment, or a valid number found in none at 0.5: the
   * best confidence is at least that of every valid number found; a valid
   * number found in no fragment always leads to a pick; with no pick the
   * confidence stays 0.0; and the pick is one of the numbers, credited with
   * the recorded confidence.
   */
  lemma {:induction false} PickAllChoosesMostConfident(numbers: seq<string>, fragments: seq<OcrFragment>)
    requires AllNumerals(numbers)
    ensures var r := PickAll(numbers, fragments);
      && (r.speed.None? ==> r.best == 0.0)
      && r.best >= 0.0
      && (forall i, c :: 0 <= i < |numbers| && FoundWith(numbers[i], fragments, c) ==> c <= r.best)
      && (forall i :: (0 <= i < |numbers| && DecimalValue(numbers[i]) in ValidSpeedLimits
                       && FirstFragmentWith(numbers[i], fragments, 0).None?) ==> r.speed.Some?)
      && (r.speed.Some? ==> r.speed.value in ValidSpeedLimits)
      && (r.speed.Some? ==> exists i :: 0 <= i < |numbers| && DecimalValue(numbers[i]) == r.speed.value
                                        && Justifies(numbers[i], fragments, r.best))
    decreases |numbers|
  {
    if numbers != [] {
      var init, last := numbers[..|numbers| - 1], numbers[|numbers| - 1];
      assert AllNumerals(init);
      PickAllChoosesMostConfident(init, fragments);
      var p := PickAll(init, fragments);
      var r := PickStep(p, last, fragments);
      assert r == PickAll(numbers, fragments);
      assert forall i :: 0 <= i < |init| ==> init[i] == numbers[i];
      if r.speed.Some? {
        if r == p {
          var i :| 0 <= i < |init| && DecimalValue(init[i]) == p.speed.value && Justifies(init[i], fragments, p.best);
          assert numbers[i] == init[i];
        } else {
          assert DecimalValue(numbers[|numbers| - 1]) == r.speed.value;
        }
      }
    }
  }

  /** A run of one digit `n` whose tenfold `10 n` is a valid limit: "4" misread for "40". */
  predicate Inferable(numStr: string)
    requires AllDigits(numStr)
  {
    DecimalValue(numStr) < 10 && DecimalValue(numStr) * 10 in ValidSpeedLimits
  }

  /** The fallback loop: ten times the first inferable number at or after `from`. */
  function InferFrom(numbers: seq<string>, from: nat): (r: Option<int>)
    requires AllNumerals(numbers)
    ensures r.Some? ==> r.value in ValidSpeedLimits
    decreases |numbers| - from
  {
    if from >= |numbers| then None
    else if Inferable(numbers[from]) then Some(10 * DecimalValue(numbers[from]))
    else InferFrom(numbers, from + 1)
  }

  /**
   * The fallback finds something exactly when some number at or after `from`
   * is inferable, and then it is ten times the first such number.
   */
  lemma {:induction false} InferFromFindsFirst(numbers: seq<string>, from: nat)
    requires AllNumerals(numbers)
    ensures InferFrom(numbers, from).Some? <==> exists i :: from <= i < |numbers| && Inferable(numbers[i])
    ensures InferFrom(numbers, from).Some? ==>
      exists i :: from <= i < |numbers| && Inferable(numbers[i])
                  && InferFrom(numbers, from).value == 10 * DecimalValue(numbers[i])
                  && forall j :: from <= j < i ==> !Inferable(numbers[j])
    decreases |numbers| - from
  {
    if from < |numbers| && !Inferable(numbers[from]) {
      InferFromFindsFirst(numbers, from + 1);
    }
  }

  /**
   * `_parse_speed_limit` after its `strip()`, on the cleaned text `t`: split
   * off the time range, scan the digit runs; the best-confidence valid
   * number, else the single-digit fallback at 0.3, else nothing.
   */
  function ParseCleaned(t: string, fragments: seq<OcrFragment>): (r: Option<OcrResult>)
    ensures r.Some? ==> r.value.speedLimit in ValidSpeedLimits && r.value.confidence >= 0.0
    ensures r.Some? ==> r.value.timeCondition == SplitTime(t).condition && r.value.rawText == SplitTime(t).rest
  {
    var split := SplitTime(t);
    var numbers := DigitRuns(split.rest);
    if numbers == [] then None
    else
      var picked := PickAll(numbers, fragments);
      PickAllChoosesMostConfident(numbers, fragments);
      if picked.speed.Some? then Some(OcrResult(picked.speed.value, picked.best, split.condition, split.rest))
      else
        match InferFrom(numbers, 0)
        case Some(v) => Some(OcrResult(v, 0.3, split.condition, split.rest))
        case None => None
  }

  /** `_parse_speed_limit(text, ocr_results)`: the cleaned-text parse of `text.strip()`. */
  function ParsedSpeedLimit(text: string, fragments: seq<OcrFragment>): (r: Option<OcrResult>)
    ensures r.Some? ==> r.value.speedLimit in ValidSpeedLimits && r.value.confidence >= 0.0
  {
    ParseCleaned(Strip(text), fragments)
  }

  /**
   * The number loop of `_parse_speed_limit`: for each number, the inner
   * search for the first fragment containing it, with its `break`, and the
   * `else` branch taken when no fragment does.
   */
  method PickNumbers(numbers: seq<string>, fragments: seq<OcrFragment>) returns (speedLimit: Option<int>, bestConfidence: real)
    requires AllNumerals(numbers)
    ensures Pick(speedLimit, bestConfidence) == PickAll(numbers, fragments)
  {
    speedLimit, bestConfidence := None, 0.0;
    var i := 0;
    while i < |numbers|
      invariant 0 <= i <= |numbers|
      invariant Pick(speedLimit, bestConfidence) == PickAll(numbers[..i], fragments)
    {
      var numStr := numbers[i];
      var before := Pick(speedLimit, bestConfidence);
      var num := DecimalValue(numStr);
      if num in ValidSpeedLimits {
        var j := 0;
        while j < |fragments|
          invariant 0 <= j <= |fragments|
          invariant FirstFragmentWith(numStr, fragments, 0) == FirstFragmentWith(numStr, fragments, j)
          invariant Pick(speedLimit, bestConfidence) == before
        {
          if Contains(fragments[j].text, numStr) {
            if fragments[j].confidence > bestConfidence {
              speedLimit := Some(num);
              bestConfidence := fragments[j].confidence;
            }
            break;
          }
          j := j + 1;
        }
        if j == |fragments| {
          if speedLimit.None? {
            speedLimit := Some(num);
            bestConfidence := 0.5;
          }
        }
      }
      assert Pick(speedLimit, bestConfidence) == PickStep(before, numStr, fragments);
      assert numbers[..i + 1][..i] == numbers[..i];
      i := i + 1;
    }
    assert numbers[..|numbers|] == numbers;
  }

  /** The fallback loop of `_parse_speed_limit`: the first single digit whose tenfold is valid, with its `break`. */
  method InferSpeed(numbers: seq<string>) returns (speedLimit: Option<int>)
    requires AllNumerals(numbers)
    ensures speedLimit == InferFrom(numbers, 0)
  {
    speedLimit := None;
    var k := 0;
    while k < |numbers|
      invariant 0 <= k <= |numbers|
      invariant InferFrom(numbers, 0) == InferFrom(numbers, k)
    {
      var num := DecimalValue(numbers[k]);
      if num < 10 {
        var possible := num * 10;
        if possible in ValidSpeedLimits {
          return Some(possible);
        }
      }
      k := k + 1;
    }
  }

  /**
   * The time-range step of `_parse_speed_limit`: the leftmost range, its
   * `from_string` condition, and the text with every occurrence of the
   * range's text replaced by a space.
   */
  method TakeTimeRange(t: string) returns (timeCondition: Option<TimeCondition>, rest: string)
    ensures timeCondition == SplitTime(t).condition && rest == SplitTime(t).rest
  {
    ghost var split := SplitTime(t);
    timeCondition, rest := None, t;
    var timeMatch := SearchRange(t, 0);
    if timeMatch.Some? {
      var p := timeMatch.value;
      var timeStr := t[p..p + MatchRangeAt(t, p).value.length];
      assert split.timeText == Some(timeStr);
      ConditionOfMatchedText(t, p);
      timeCondition := FromString(timeStr);
      rest := ReplaceAll(t, timeStr, " ");
    }
  }

  /** `_parse_speed_limit(text, ocr_results)`, with its loops, the for-else and the breaks. */
  method ParseSpeedLimit(text: string, fragments: seq<OcrFragment>) returns (r: Option<OcrResult>)
    ensures r == ParsedSpeedLimit(text, fragments)
  {
    var t := Strip(text);
    var timeCondition, rest := TakeTimeRange(t);
    var numbers := DigitRuns(rest);
    if numbers == [] {
      return None;
    }
    var speedLimit, bestConfidence := PickNumbers(numbers, fragments);
    if speedLimit.None? {
      speedLimit := InferSpeed(numbers);
      bestConfidence := 0.3;
    }
    if speedLimit.None? {
      return None;
    }
    return Some(OcrResult(speedLimit.value, bestConfidence, timeCondition, rest));
  }

  /** Cleaned text without a single digit gives no result. */
  lemma NoDigitNoParse(t: string, fragments: seq<OcrFragment>)
    requires forall k :: 0 <= k < |t| ==> !IsDigit(t[k])
    ensures ParseCleaned(t, fragments).None?
  {
    forall q | 0 <= q <= |t|
      ensures MatchRangeAt(t, q).None?
    {
      assert HourDigitsAt(t, q) == 0;
    }
    assert SearchRange(t, 0).None?;
    assert SplitTime(t).rest == t;
  }

  /** Text without a single digit gives no result. */
  lemma NoDigitNoResult(text: string, fragments: seq<OcrFragment>)
    requires forall k :: 0 <= k < |text| ==> !IsDigit(text[k])
    ensures ParsedSpeedLimit(text, fragments).None?
  {
    StripKeepsNoDigit(text);
    NoDigitNoParse(Strip(text), fragments);
  }

  /**
   * The speed part of a result: either the best-confidence valid number of
   * the remaining text, credited with its first fragment's confidence (0.5
   * when no fragment has it), or, when no valid number was picked, ten times
   * the first single digit whose tenfold is valid, at 0.3; in both cases no
   * valid number found in a fragment is credited with more confidence.
   */
  lemma ResultSpeedPart(t: string, fragments: seq<OcrFragment>)
    requires ParseCleaned(t, fragments).Some?
    ensures var r := ParseCleaned(t, fragments).value;
      var numbers := DigitRuns(SplitTime(t).rest);
      && (forall i, c :: 0 <= i < |numbers| && FoundWith(numbers[i], fragments, c) ==> c <= r.confidence)
      && ((exists i :: 0 <= i < |numbers| && DecimalValue(numbers[i]) == r.speedLimit
                       && Justifies(numbers[i], fragments, r.confidence))
          || (r.confidence == 0.3 && PickAll(numbers, fragments).speed.None?
              && Some(r.speedLimit) == InferFrom(numbers, 0)))
  {
    var numbers := DigitRuns(SplitTime(t).rest);
    PickAllChoosesMostConfident(numbers, fragments);
  }
}
