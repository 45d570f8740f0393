/**
 * The date input mask: the field always shows `dd/mm/yyyy`, typed digits overwrite
 * the mask in place, Backspace puts the mask character back, a paste lays out the
 * pasted digits around the two separators, and the value written from a date is the
 * zero-padded day and month and the year.
 */
module DateMask {
  import opened Wrappers
  import opened Strings
  import Sequences

  const Separator: char := '/'
  const Mask: string := "dd/mm/yyyy"
  const AllowedKeys: seq<string> := ["ArrowLeft", "ArrowRight", "Backspace", "Home", "End", "Tab"]
  const NavigationKeys: seq<string> := ["ArrowLeft", "ArrowRight", "Home", "End", "Tab"]

  function Min(a: int, b: int): int
  {
    if a < b then a else b
  }

  /**
   * `replaceAt`: `text.substring(0, index) + replacement + text.substring(index + |replacement|)`,
   * where `substring` clamps its bounds at the text's length.
   */
  function ReplaceAt(text: string, index: nat, replacement: string): string
  {
    var a := Min(index, |text|);
    var b := Min(index + |replacement|, |text|);
    text[..a] + replacement + text[b..]
  }

  /**
   * `replaceAt` keeps what stands before `index`, puts the replacement at `index`, keeps
   * what stands past it, and keeps the length when the replacement fits; past the end it
   * appends.
   */
  lemma ReplaceAtPlaces(text: string, index: nat, replacement: string)
    ensures var r := ReplaceAt(text, index, replacement);
      && (index + |replacement| <= |text| ==> |r| == |text|)
      && (index <= |text| ==> |r| >= index + |replacement|)
      && (index <= |text| ==> forall k :: 0 <= k < index ==> r[k] == text[k])
      && (index <= |text| ==> forall k :: 0 <= k < |replacement| ==> r[index + k] == replacement[k])
      && (index + |replacement| <= |text| ==>
           forall k :: index + |replacement| <= k < |text| ==> r[k] == text[k])
      && (index >= |text| ==> r == text + replacement)
  {
  }

  /** Writing back what is already there changes nothing. */
  lemma ReplaceAtSame(text: string, index: nat, n: nat)
    requires index + n <= |text|
    ensures ReplaceAt(text, index, text[index..index + n]) == text
  {
    assert text[..index] + text[index..index + n] + text[index + n..] == text;
  }

  /** A later write at the same place, of the same length, hides an earlier one. */
  lemma ReplaceAtTwice(text: string, index: nat, a: string, b: string)
    requires index + |a| <= |text| && |a| == |b|
    ensures ReplaceAt(ReplaceAt(text, index, a), index, b) == ReplaceAt(text, index, b)
  {
  }

  /** `text.indexOf(ch, from)` */
  function IndexOfFrom(text: string, ch: char, from: nat): (i: int)
    ensures i == -1 || (from <= i < |text| && text[i] == ch)
    ensures i == -1 ==> forall k :: from <= k < |text| ==> text[k] != ch
    ensures i >= 0 ==> forall k :: from <= k < i ==> text[k] != ch
    decreases |text| - from
  {
    if from >= |text| then -1
    else if text[from] == ch then from
    else IndexOfFrom(text, ch, from + 1)
  }

  /** The positions of `ch` at or after `from`, in increasing order. */
  function Positions(text: string, ch: char, from: nat): seq<nat>
    decreases |text| - from
  {
    if from >= |text| then []
    else if text[from] == ch then [from] + Positions(text, ch, from + 1)
    else Positions(text, ch, from + 1)
  }

  /** `Positions` holds exactly the places of `ch` from `from` on. */
  lemma {:induction false} PositionsMembers(text: string, ch: char, from: nat)
    ensures forall k :: k in Positions(text, ch, from) <==> from <= k < |text| && text[k] == ch
    decreases |text| - from
  {
    if from < |text| {
      PositionsMembers(text, ch, from + 1);
    }
  }

  /** `Positions` lists the places in increasing order. */
  lemma {:induction false} PositionsIncreasing(text: string, ch: char, from: nat)
    ensures var r := Positions(text, ch, from);
      forall i, j :: 0 <= i < j < |r| ==> r[i] < r[j]
    decreases |text| - from
  {
    if from < |text| && text[from] == ch {
      PositionsIncreasing(text, ch, from + 1);
      PositionsMembers(text, ch, from + 1);
      var rest := Positions(text, ch, from + 1);
      var r := [from] + rest;
      forall i, j | 0 <= i < j < |r|
        ensures r[i] < r[j]
      {
        assert r[j] == rest[j - 1] && rest[j - 1] in rest;
        if i > 0 {
          assert r[i] == rest[i - 1] && rest[i - 1] < rest[j - 1];
        }
      }
      assert Positions(text, ch, from) == r;
    } else if from < |text| {
      PositionsIncreasing(text, ch, from + 1);
      assert Positions(text, ch, from) == Positions(text, ch, from + 1);
    }
  }

  /** The positions from `from` start at the next occurrence. */
  lemma {:induction false} PositionsFrom(text: string, ch: char, from: nat)
    ensures var i := IndexOfFrom(text, ch, from);
      Positions(text, ch, from) == if i == -1 then [] else [i] + Positions(text, ch, i + 1)
    decreases |text| - from
  {
    if from < |text| && text[from] != ch {
      PositionsFrom(text, ch, from + 1);
    }
  }

  /** `getAllIndexes`: the `indexOf` loop collects every position of `ch`, in order. */
  method GetAllIndexes(text: string, ch: char) returns (indexes: seq<nat>)
    ensures indexes == Positions(text, ch, 0)
  {
    indexes := [];
    var i := -1;
    while true
      invariant -1 <= i < |text|
      invariant indexes + Positions(text, ch, i + 1) == Positions(text, ch, 0)
      decreases |text| - i
    {
      PositionsFrom(text, ch, i + 1);
      var next := IndexOfFrom(text, ch, i + 1);
      if next == -1 {
        break;
      }
      assert (indexes + [next]) + Positions(text, ch, next + 1) == indexes + Positions(text, ch, i + 1);
      indexes := indexes + [next];
      i := next;
    }
  }

  /** The separators of the mask sit at 2 and 5. */
  lemma SeparatorIndexes()
    ensures Positions(Mask, Separator, 0) == [2, 5]
  {
    var m := Mask;
    assert m[0] == 'd' && m[1] == 'd' && m[2] == '/' && m[3] == 'm' && m[4] == 'm' && m[5] == '/';
    assert m[6] == 'y' && m[7] == 'y' && m[8] == 'y' && m[9] == 'y' && |m| == 10;
    assert Positions(m, Separator, 6) == [] by {
      assert Positions(m, Separator, 10) == [];
      assert Positions(m, Separator, 9) == [];
      assert Positions(m, Separator, 8) == [];
      assert Positions(m, Separator, 7) == [];
    }
    assert Positions(m, Separator, 5) == [5];
    assert Positions(m, Separator, 3) == [5] by {
      assert Positions(m, Separator, 4) == [5];
    }
    assert Positions(m, Separator, 2) == [2, 5];
    assert Positions(m, Separator, 1) == [2, 5];
  }

  /** The pasted text's characters that `/^[0-9]$/` accepts, in order. */
  function DigitsOf(s: string): (r: string)
    ensures |r| <= |s|
    ensures forall c :: c in r <==> c in s && IsDigit(c)
    ensures forall c :: multiset(r)[c] == if IsDigit(c) then multiset(s)[c] else 0
    ensures Sequences.Subsequence(r, s)
  {
    if s == [] then []
    else
      var rest := DigitsOf(s[1..]);
      assert s == [s[0]] + s[1..];
      if IsDigit(s[0]) then [s[0]] + rest else rest
  }

  /** A text of digits only is kept whole. */
  lemma {:induction false} DigitsOfDigits(s: string)
    requires forall i :: 0 <= i < |s| ==> IsDigit(s[i])
    ensures DigitsOf(s) == s
  {
    if s != [] {
      DigitsOfDigits(s[1..]);
    }
  }

  /** How many digit positions of the mask come before position `i`. */
  function DigitsBefore(i: nat): nat
  {
    if i <= 2 then i else if i <= 5 then i - 1 else i - 2
  }

  /** How far a paste of `m` digits gets before it runs out: the position of digit `m`. */
  function Stop(m: nat): (n: nat)
    ensures n <= 10
    ensures m >= 8 <==> n == 10
  {
    if m < 2 then m else if m < 4 then m + 1 else if m < 8 then m + 2 else 10
  }

  /** What a paste writes at mask position `i`: a separator, or the next pasted digit. */
  function PasteChar(digits: string, i: nat): char
    requires i < Stop(|digits|)
  {
    if i == 2 || i == 5 then Separator else digits[DigitsBefore(i)]
  }

  /** The first `n` characters a paste of `digits` writes. */
  function Pasted(digits: string, n: nat): (r: string)
    requires n <= Stop(|digits|)
    ensures |r| == n
  {
    seq(n, i requires 0 <= i < n => PasteChar(digits, i))
  }

  /** A complete paste: two digits, '/', two digits, '/', four digits. */
  lemma PastedComplete(digits: string)
    requires |digits| >= 8
    ensures Pasted(digits, 10) == digits[0..2] + [Separator] + digits[2..4] + [Separator] + digits[4..8]
  {
  }

  /** What is left of the old text past position `n`. */
  function Rest(text: string, n: nat): string
  {
    if n <= |text| then text[n..] else []
  }

  lemma ReplaceAtNext(p: string, old_: string, c: char)
    ensures ReplaceAt(p + Rest(old_, |p|), |p|, [c]) == p + [c] + Rest(old_, |p| + 1)
  {
  }

  /**
   * Where the paste loop stands: a separator position is always before the stop, and
   * at a digit position the digits run out exactly at the stop, which is short of the
   * mask only for fewer than 8 digits.
   */
  lemma PasteProgress(index: nat, m: nat)
    requires index < |Mask| && index <= Stop(m)
    ensures (index == 2 || index == 5) ==> index < Stop(m)
    ensures index != 2 && index != 5 ==> (DigitsBefore(index) >= m <==> index == Stop(m))
    ensures index != 2 && index != 5 && DigitsBefore(index) >= m ==> m < 8
  {
  }

  /** One write of the paste loop extends what is pasted by one place. */
  lemma PasteStep(filtered: string, text: string, index: nat)
    requires index < Stop(|filtered|)
    ensures ReplaceAt(Pasted(filtered, index) + Rest(text, index), index, [PasteChar(filtered, index)])
      == Pasted(filtered, index + 1) + Rest(text, index + 1)
  {
    ReplaceAtNext(Pasted(filtered, index), text, PasteChar(filtered, index));
    assert Pasted(filtered, index) + [PasteChar(filtered, index)] == Pasted(filtered, index + 1);
  }

  /** Every character a paste writes is a separator or a digit. */
  lemma PastedChars(digits: string, n: nat)
    requires n <= Stop(|digits|)
    requires forall i :: 0 <= i < |digits| ==> IsDigit(digits[i])
    ensures forall i :: 0 <= i < n ==> (Pasted(digits, n)[i] == Separator <==> i == 2 || i == 5)
  {
    forall i | 0 <= i < n
      ensures Pasted(digits, n)[i] == Separator <==> i == 2 || i == 5
    {
      if i != 2 && i != 5 {
        assert IsDigit(digits[DigitsBefore(i)]);
      }
    }
  }

  /**
   * The loop of `onPaste` over the field's text: the separators at 2 and 5, the pasted
   * digits in order elsewhere. With fewer than eight digits, `filtered[remaining]` is
   * undefined at the first position it cannot fill and the write there throws, leaving
   * what was written so far.
   */
  method PasteDigits(text: string, filtered: string) returns (completed: bool, value: string)
    ensures completed <==> |filtered| >= 8
    ensures var n := Stop(|filtered|); value == Pasted(filtered, n) + Rest(text, n)
  {
    value := text;
    var remaining := 0;
    var index := 0;
    while index < |Mask|
      invariant 0 <= index <= Stop(|filtered|)
      invariant remaining == DigitsBefore(index)
      invariant value == Pasted(filtered, index) + Rest(text, index)
    {
      PasteProgress(index, |filtered|);
      if index == 2 || index == 5 {
        PasteStep(filtered, text, index);
        var next := ReplaceAt(value, index, [Separator]);
        assert next == Pasted(filtered, index + 1) + Rest(text, index + 1);
        value := next;
      } else if remaining >= |filtered| {
        return false, value;
      } else {
        PasteStep(filtered, text, index);
        var next := ReplaceAt(value, index, [filtered[remaining]]);
        assert next == Pasted(filtered, index + 1) + Rest(text, index + 1);
        value := next;
        remaining := remaining + 1;
      }
      index := index + 1;
    }
    completed := true;
  }

  /** `value.getDate()`, `value.getMonth()` (from 0) and `value.getFullYear()`. */
  datatype CalendarDate = CalendarDate(year: int, month: nat, day: nat)

  /** `writeValue`: the mask for no date, else `dd/mm/yyyy` with day and month padded to two digits. */
  function DisplayDate(date: Option<CalendarDate>): string
  {
    match date
    case None => Mask
    case Some(d) =>
      PadStart(NatToString(d.day), 2, '0') + [Separator] + PadStart(NatToString(d.month + 1), 2, '0')
      + [Separator] + IntToString(d.year)
  }

  /** The two-digit text of a number below 100, as padding gives it. */
  lemma TwoDigits(n: nat)
    requires n < 100
    ensures n / 10 < 10 && n % 10 < 10
    ensures PadStart(NatToString(n), 2, '0') == [DigitChar(n / 10), DigitChar(n % 10)]
  {
    var s := NatToString(n);
    if n < 10 {
      assert s == [DigitChar(n)];
      assert n / 10 == 0 && n % 10 == n;
      assert PadStart(s, 2, '0') == ['0'] + s;
    } else {
      var hi := n / 10;
      assert hi < 10;
      assert s == NatToString(hi) + [DigitChar(n % 10)];
      assert NatToString(hi) == [DigitChar(hi)];
      assert PadStart(s, 2, '0') == s;
    }
  }

  /**
   * A date with a day and month in range shows as `dd/mm/` followed by the year, with the
   * day and month digits in place.
   */
  lemma DisplayDateLayout(d: CalendarDate)
    requires 1 <= d.day <= 31 && d.month < 12
    ensures var r := DisplayDate(Some(d));
      && |r| == 6 + |IntToString(d.year)|
      && r[2] == Separator && r[5] == Separator
      && r[0] == DigitChar(d.day / 10) && r[1] == DigitChar(d.day % 10)
      && r[3] == DigitChar((d.month + 1) / 10) && r[4] == DigitChar((d.month + 1) % 10)
      && IsDigit(r[0]) && IsDigit(r[1]) && IsDigit(r[3]) && IsDigit(r[4])
      && r[6..] == IntToString(d.year)
  {
    TwoDigits(d.day);
    TwoDigits(d.month + 1);
    var a := PadStart(NatToString(d.day), 2, '0');
    var b := PadStart(NatToString(d.month + 1), 2, '0');
    DateTextLayout(a, b, IntToString(d.year));
  }

  lemma DateTextLayout(a: string, b: string, y: string)
    requires |a| == 2 && |b| == 2
    ensures var r := a + [Separator] + b + [Separator] + y;
      && |r| == 6 + |y| && r[2] == Separator && r[5] == Separator
      && r[0] == a[0] && r[1] == a[1] && r[3] == b[0] && r[4] == b[1] && r[6..] == y
  {
    var r := a + [Separator] + b + [Separator] + y;
    assert r[6..] == y;
  }

  /** `/[0-9]{2}\/[0-9]{2}\/[0-9]{4}/` matches at position `i`. */
  predicate DateAt(s: string, i: nat)
    requires i + 10 <= |s|
  {
    && IsDigit(s[i]) && IsDigit(s[i + 1]) && s[i + 2] == Separator
    && IsDigit(s[i + 3]) && IsDigit(s[i + 4]) && s[i + 5] == Separator
    && IsDigit(s[i + 6]) && IsDigit(s[i + 7]) && IsDigit(s[i + 8]) && IsDigit(s[i + 9])
  }

  /** `dateRegex.test(s)`: the pattern is not anchored, so it may match anywhere. */
  predicate DateShaped(s: string)
  {
    exists i: nat :: i + 10 <= |s| && DateAt(s, i)
  }

  lemma NatToStringLonger(n: nat)
    requires n >= 10
    ensures |NatToString(n)| == |NatToString(n / 10)| + 1
  {
  }

  lemma FourDigits(y: nat)
    requires 1000 <= y <= 9999
    ensures |NatToString(y)| == 4
  {
    var a, b, c := y / 10, y / 100, y / 1000;
    assert 100 <= a < 1000 && a / 10 == b;
    assert 10 <= b < 100 && b / 10 == c;
    assert 1 <= c < 10;
    NatToStringLonger(y);
    NatToStringLonger(a);
    NatToStringLonger(b);
  }

  /** A date with a four-digit year shows in a form the date pattern matches. */
  lemma DisplayDateShaped(d: CalendarDate)
    requires 1 <= d.day <= 31 && d.month < 12 && 1000 <= d.year <= 9999
    ensures DateShaped(DisplayDate(Some(d)))
  {
    var r := DisplayDate(Some(d));
    DisplayDateLayout(d);
    var y := NatToString(d.year);
    FourDigits(d.year);
    assert IntToString(d.year) == y;
    assert r[6..] == y;
    assert r[6] == y[0] && r[7] == y[1] && r[8] == y[2] && r[9] == y[3];
    assert IsDigit(y[0]) && IsDigit(y[1]) && IsDigit(y[2]) && IsDigit(y[3]);
    assert DateAt(r, 0);
  }

  /** `dateParts[i]`, where a missing part joins as the empty string. */
  function Part(parts: seq<string>, i: nat): string
  {
    if i < |parts| then parts[i] else []
  }

  /** What `onKeyDown` reports through `onChange`. */
  datatype DateChange =
    | Cleared                    // `onChange(null)`: the field shows the bare mask
    | Entered(monthFirst: string) // `onChange(new Date(text))` with day and month swapped

  function ChangeOf(value: string): DateChange
  {
    var parts := Split(value, Separator);
    var formatted := Join([Part(parts, 0), Part(parts, 1), Part(parts, 2)], [Separator]);
    if formatted == Mask then Cleared
    else Entered(Join([Part(parts, 1), Part(parts, 0), Part(parts, 2)], [Separator]))
  }

  /** Whether `onKeyDown` calls `onTouched`: on a cleared field or a complete date. */
  predicate TouchedBy(value: string)
  {
    var parts := Split(value, Separator);
    var formatted := Join([Part(parts, 0), Part(parts, 1), Part(parts, 2)], [Separator]);
    formatted == Mask || DateShaped(formatted)
  }

  lemma SplitMask()
    ensures Split(Mask, Separator) == ["dd", "mm", "yyyy"]
  {
    MaskParts();
    SplitAfter("dd", Separator, "mm" + [Separator] + "yyyy");
    SplitTail();
  }

  lemma MaskParts()
    ensures Mask == "dd" + [Separator] + ("mm" + [Separator] + "yyyy")
  {
  }

  lemma SplitTail()
    ensures Split("mm" + [Separator] + "yyyy", Separator) == ["mm", "yyyy"]
  {
    SplitAfter("mm", Separator, "yyyy");
    SplitWithout("yyyy", Separator);
  }

  /** The bare mask reports a cleared date. */
  lemma MaskClears()
    ensures ChangeOf(Mask) == Cleared && TouchedBy(Mask)
  {
    SplitMask();
    JoinSplit(Mask, Separator);
  }

  /** `event.key.match(/\d/)`: the key's name contains a digit somewhere. */
  predicate HasDigit(key: string)
  {
    exists i :: 0 <= i < |key| && IsDigit(key[i])
  }

  /** The guard of `onKeyDown`: keys it refuses outright. */
  predicate KeyRefused(key: string, idx: nat)
  {
    (!HasDigit(key) && key !in AllowedKeys) || (idx == |Mask| && key !in AllowedKeys)
  }

  /** As written, a function key's name passes the guard: "F5" contains a digit. */
  lemma FunctionKeyPasses()
    ensures !KeyRefused("F5", 0)
    ensures ReplaceAt(Mask, 0, "F5") == "F5/mm/yyyy"
  {
    assert IsDigit("F5"[1]);
  }

  /** The guard as evidently intended: only a single digit may overwrite the mask. */
  predicate KeyRefusedIntended(key: string, idx: nat)
  {
    (!(|key| == 1 && IsDigit(key[0])) && key !in AllowedKeys) || (idx == |Mask| && key !in AllowedKeys)
  }

  /** With the intended guard, every key that is let through to edit the field is one digit. */
  lemma IntendedGuardWritesDigits(key: string, idx: nat)
    requires !KeyRefusedIntended(key, idx) && key !in AllowedKeys
    ensures |key| == 1 && IsDigit(key[0])
    ensures !KeyRefused(key, idx)
  {
    assert IsDigit(key[0]);
  }

  /** The intended guard refuses "F5". */
  lemma IntendedGuardRefusesFunctionKey()
    ensures KeyRefusedIntended("F5", 0)
  {
    assert "F5" !in AllowedKeys by {
      assert forall k :: k in AllowedKeys ==> |k| != 2;
    }
  }

  /** What the key lists hold, as `onKeyDown` relies on it. */
  lemma KeyLists()
    ensures "Backspace" in AllowedKeys && "Backspace" !in NavigationKeys
    ensures forall k :: k in NavigationKeys ==> k in AllowedKeys
  {
  }

  /** How a key press ends. */
  datatype KeyOutcome =
    | Default                                  // the browser applies the key itself
    | Prevented                                // the default is prevented and nothing changes
    | Edited(change: DateChange, touched: bool) // the field was rewritten and reported
    | Thrown                                   // `mask[idx - 1]` is undefined: a TypeError

  /** The input element the mask is attached to. */
  class DateInput {
    var value: string
    /** `selectionStart`: where the caret is. */
    var caret: nat

    constructor(value: string)
      ensures this.value == value && caret == 0
    {
      this.value := value;
      caret := 0;
    }

    /** Assigning `value`: a different text moves the caret to its end. */
    method SetValue(v: string)
      modifies this
      ensures value == v
      ensures caret == if v != old(value) then |v| else old(caret)
    {
      if v != value {
        value := v;
        caret := |v|;
      }
    }

    /** `writeValue` */
    method WriteValue(date: Option<CalendarDate>)
      modifies this
      ensures value == DisplayDate(date)
      ensures date == None ==> value == Mask
    {
      SetValue(DisplayDate(date));
    }

    /**
     * `onPaste`: the separators at 2 and 5, the pasted digits in order elsewhere; with
     * fewer than eight digits the paste stops where it runs out. Each intermediate write
     * moves the caret to the end, as one write of the final text does.
     */
    method OnPaste(clipboard: string) returns (completed: bool)
      modifies this
      ensures completed <==> |DigitsOf(clipboard)| >= 8
      ensures var n := Stop(|DigitsOf(clipboard)|);
        value == Pasted(DigitsOf(clipboard), n) + Rest(old(value), n)
    {
      var v;
      completed, v := PasteDigits(value, DigitsOf(clipboard));
      SetValue(v);
    }

    /**
     * `onKeyDown`, with its guard as written: Ctrl+C and Ctrl+V and the navigation
     * keys are left to the browser; a key is refused unless it is allowed or holds a
     * digit somewhere (so "F5" gets through, see `FunctionKeyPasses`), and a refused
     * key is swallowed; Backspace puts back the mask character before the caret; any
     * other accepted key overwrites the field at the caret, one place further on when
     * the caret stands on a separator, and the caret skips over the separator that
     * follows. Every edit reports the new value and whether it is touched.
     */
    method OnKeyDown(key: string, ctrlKey: bool) returns (outcome: KeyOutcome)
      modifies this
      ensures (key == "c" || key == "v") && ctrlKey ==>
        outcome == Default && value == old(value) && caret == old(caret)
      ensures !((key == "c" || key == "v") && ctrlKey) && KeyRefused(key, old(caret)) ==>
        outcome == Prevented && value == old(value) && caret == old(caret)
      ensures key in NavigationKeys && !ctrlKey ==>
        outcome == Default && value == old(value) && caret == old(caret)
      ensures key == "Backspace" && old(caret) == 0 ==>
        outcome == Prevented && value == old(value) && caret == old(caret)
      ensures key == "Backspace" && 0 < old(caret) <= |Mask| ==>
        && value == ReplaceAt(old(value), old(caret) - 1, [Mask[old(caret) - 1]])
        && caret == old(caret) - 1
        && outcome == Edited(ChangeOf(value), TouchedBy(value))
      ensures key == "Backspace" && old(caret) > |Mask| ==>
        outcome == Thrown && value == old(value)
      ensures !((key == "c" || key == "v") && ctrlKey) && !KeyRefused(key, old(caret)) && key !in AllowedKeys ==>
        var at := if old(caret) == 2 || old(caret) == 5 then old(caret) + 1 else old(caret);
        var skip := if old(caret) in {1, 2, 4, 5} then 2 else 1;
        && HasDigit(key) && old(caret) != |Mask|
        && value == ReplaceAt(old(value), at, key)
        && caret == Min(old(caret) + skip, |value|)
        && outcome == Edited(ChangeOf(value), TouchedBy(value))
      ensures outcome.Edited? ==> outcome == Edited(ChangeOf(value), TouchedBy(value))
    {
      KeyLists();
      if (key == "c" || key == "v") && ctrlKey {
        return Default;
      }
      var idx := caret;
      if KeyRefused(key, idx) {
        return Prevented;
      }
      if key in NavigationKeys {
        return Default;
      }
      if key == "Backspace" {
        if caret == 0 {
          return Prevented;
        }
        if idx - 1 >= |Mask| {
          return Thrown;
        }
        SetValue(ReplaceAt(value, idx - 1, [Mask[idx - 1]]));
        caret := idx - 1;
      } else {
        var separatorIndexes := GetAllIndexes(Mask, Separator);
        SeparatorIndexes();
        assert idx in separatorIndexes <==> idx == 2 || idx == 5;
        assert idx + 1 in separatorIndexes <==> idx == 1 || idx == 4;
        if idx in separatorIndexes {
          SetValue(ReplaceAt(value, idx + 1, key));
          caret := Min(idx + 2, |value|);
        } else if idx + 1 in separatorIndexes {
          SetValue(ReplaceAt(value, idx, key));
          caret := Min(idx + 2, |value|);
        } else {
          SetValue(ReplaceAt(value, idx, key));
          caret := Min(idx + 1, |value|);
        }
      }
      outcome := Edited(ChangeOf(value), TouchedBy(value));
    }
  }
}
