/**
 * The JavaScript string operations the modelled code relies on, written out over
 * `seq<char>`: `split` on one character, `join`, `includes`, `endsWith`,
 * `replace` of the first occurrence, `trim`, ASCII case mapping, and number formatting.
 */
module Strings {

  /** `s.split(c)`: never empty; an empty string splits into one empty part. */
  function Split(s: string, c: char): (parts: seq<string>)
    ensures |parts| >= 1
    ensures forall i :: 0 <= i < |parts| ==> c !in parts[i]
  {
    if s == [] then [[]]
    else
      var rest := Split(s[1..], c);
      if s[0] == c then [[]] + rest
      else [[s[0]] + rest[0]] + rest[1..]
  }

  /** `parts.join(sep)`. */
  function Join(parts: seq<string>, sep: string): string
  {
    if |parts| == 0 then []
    else if |parts| == 1 then parts[0]
    else parts[0] + sep + Join(parts[1..], sep)
  }

  /** Every occurrence of `c` in `s` replaced by `sep`. */
  function ReplaceChar(s: string, c: char, sep: string): string
  {
    if s == [] then []
    else (if s[0] == c then sep else [s[0]]) + ReplaceChar(s[1..], c, sep)
  }

  /** The part of `s` before its last occurrence of `c`. */
  function BeforeLast(s: string, c: char): (r: string)
    requires c in s
    ensures |r| < |s| && r == s[..|r|] && s[|r|] == c && c !in s[|r| + 1..]
  {
    if c in s[1..] then
      var r := [s[0]] + BeforeLast(s[1..], c);
      assert s[1..][|r| - 1..] == s[|r|..];
      r
    else
      assert s[0] == c;
      []
  }

  /** The position of the last `c` determines `BeforeLast`. */
  lemma BeforeLastAt(s: string, c: char, k: nat)
    requires k < |s| && s[k] == c && c !in s[k + 1..]
    ensures BeforeLast(s, c) == s[..k]
  {
  }

  /** The text before the last `c` of `a`, `c`, `b` is `a` when `b` holds no `c`. */
  lemma BeforeLastOf(a: string, c: char, b: string)
    requires c !in b
    ensures BeforeLast(a + [c] + b, c) == a
  {
    var s := a + [c] + b;
    assert s[|a|] == c && s[|a| + 1..] == b;
    BeforeLastAt(s, c, |a|);
  }

  lemma {:induction false} JoinConsHead(x: char, p: string, rest: seq<string>, sep: string)
    ensures Join([[x] + p] + rest, sep) == [x] + Join([p] + rest, sep)
  {
    if |rest| > 0 {
      assert ([[x] + p] + rest)[1..] == rest;
      assert ([p] + rest)[1..] == rest;
    }
  }

  lemma {:induction false} JoinSnoc(parts: seq<string>, last: string, sep: string)
    ensures Join(parts + [last], sep) == if parts == [] then last else Join(parts, sep) + sep + last
  {
    if |parts| > 1 {
      assert (parts + [last])[1..] == parts[1..] + [last];
      JoinSnoc(parts[1..], last, sep);
    } else if |parts| == 1 {
      assert (parts + [last])[1..] == [last];
    }
  }

  /** Splitting on `c` and joining with `c` gives back the string. */
  lemma {:induction false} JoinSplit(s: string, c: char)
    ensures Join(Split(s, c), [c]) == s
  {
    if s != [] {
      var rest := Split(s[1..], c);
      JoinSplit(s[1..], c);
      if s[0] == c {
        assert ([[]] + rest)[1..] == rest;
      } else {
        JoinConsHead(s[0], rest[0], rest[1..], [c]);
        assert [rest[0]] + rest[1..] == rest;
      }
    }
  }

  /** A string without `c` splits into itself alone. */
  lemma {:induction false} SplitWithout(s: string, c: char)
    requires c !in s
    ensures Split(s, c) == [s]
  {
    if s != [] {
      SplitWithout(s[1..], c);
      assert [s[0]] + s[1..] == s;
    }
  }

  /** Splitting on `c` after a part without `c` puts that part first. */
  lemma {:induction false} SplitAfter(a: string, c: char, b: string)
    requires c !in a
    ensures Split(a + [c] + b, c) == [a] + Split(b, c)
  {
    var s := a + [c] + b;
    if a == [] {
      assert s[1..] == b;
    } else {
      assert s[1..] == a[1..] + [c] + b;
      SplitAfter(a[1..], c, b);
      assert [a[0]] + a[1..] == a;
    }
  }

  /** Joining parts without `c` by `c` and splitting on `c` gives the parts back. */
  lemma {:induction false} SplitJoin(parts: seq<string>, c: char)
    requires |parts| >= 1
    requires forall i :: 0 <= i < |parts| ==> c !in parts[i]
    ensures Split(Join(parts, [c]), c) == parts
  {
    if |parts| == 1 {
      SplitWithout(parts[0], c);
    } else {
      SplitJoin(parts[1..], c);
      SplitAfter(parts[0], c, Join(parts[1..], [c]));
      assert [parts[0]] + parts[1..] == parts;
    }
  }

  lemma ReplaceCharCons(x: char, t: string, c: char, sep: string)
    ensures ReplaceChar([x] + t, c, sep) == (if x == c then sep else [x]) + ReplaceChar(t, c, sep)
  {
    assert ([x] + t)[1..] == t;
  }

  /** How the parts before the last one grow when one character is put in front. */
  lemma ButLastCons(x: char, c: char, rest: seq<string>, sep: string)
    requires |rest| >= 2
    ensures var parts := if x == c then [[]] + rest else [[x] + rest[0]] + rest[1..];
      Join(parts[..|parts| - 1], sep) == (if x == c then sep else [x]) + Join(rest[..|rest| - 1], sep)
  {
    var init := rest[..|rest| - 1];
    if x == c {
      var parts := [[]] + rest;
      assert parts[..|parts| - 1] == [[]] + init;
      assert ([[]] + init)[1..] == init;
    } else {
      var parts := [[x] + rest[0]] + rest[1..];
      assert parts[..|parts| - 1] == [[x] + rest[0]] + rest[1..|rest| - 1];
      JoinConsHead(x, rest[0], rest[1..|rest| - 1], sep);
      assert [rest[0]] + rest[1..|rest| - 1] == init;
    }
  }

  /**
   * Dropping the last part of `s.split(c)` and joining the rest with `sep` is the
   * text before the last `c`, with each earlier `c` turned into `sep`.
   */
  lemma {:induction false} JoinAllButLast(s: string, c: char, sep: string)
    requires c in s
    ensures |Split(s, c)| >= 2
    ensures var parts := Split(s, c);
      Join(parts[..|parts| - 1], sep) == ReplaceChar(BeforeLast(s, c), c, sep)
  {
    var t := s[1..];
    var rest := Split(t, c);
    var parts := Split(s, c);
    assert parts == if s[0] == c then [[]] + rest else [[s[0]] + rest[0]] + rest[1..];
    if c !in t {
      SplitWithout(t, c);
      assert parts == [[], t];
      assert parts[..|parts| - 1] == [[]];
      assert BeforeLast(s, c) == [];
    } else {
      JoinAllButLast(t, c, sep);
      var b := BeforeLast(t, c);
      var head := if s[0] == c then sep else [s[0]];
      assert BeforeLast(s, c) == [s[0]] + b;
      ReplaceCharCons(s[0], b, c, sep);
      ButLastCons(s[0], c, rest, sep);
      assert Join(parts[..|parts| - 1], sep) == head + ReplaceChar(b, c, sep);
    }
  }

  lemma {:induction false} ReplaceCharIdentity(s: string, c: char)
    ensures ReplaceChar(s, c, [c]) == s
  {
    if s != [] {
      ReplaceCharIdentity(s[1..], c);
    }
  }

  lemma {:induction false} ReplaceCharRemoves(s: string, c: char)
    ensures c !in ReplaceChar(s, c, [])
    ensures |ReplaceChar(s, c, [])| <= |s|
  {
    if s != [] {
      ReplaceCharRemoves(s[1..], c);
    }
  }

  /** `text.startsWith(p)` */
  predicate StartsWith(text: string, p: string)
  {
    |p| <= |text| && text[..|p|] == p
  }

  /** `text.endsWith(p)` */
  predicate EndsWith(text: string, p: string)
  {
    |p| <= |text| && text[|text| - |p|..] == p
  }

  /** `text.includes(p)` */
  predicate Contains(text: string, p: string)
  {
    StartsWith(text, p) || (text != [] && Contains(text[1..], p))
  }

  lemma {:induction false} ContainsAt(text: string, p: string, i: nat)
    requires i + |p| <= |text| && text[i..i + |p|] == p
    ensures Contains(text, p)
  {
    if i > 0 {
      assert text[1..][i - 1..i - 1 + |p|] == p;
      ContainsAt(text[1..], p, i - 1);
    }
  }

  /** `text.indexOf(p)`: the first position where `p` occurs, if any. */
  function IndexOf(text: string, p: string): (r: int)
    ensures r >= -1
    ensures r == -1 <==> !Contains(text, p)
    ensures r >= 0 ==> r + |p| <= |text| && text[r..r + |p|] == p
    ensures r >= 0 ==> forall j :: 0 <= j < r ==> !StartsWith(text[j..], p)
  {
    if StartsWith(text, p) then 0
    else if text == [] then -1
    else
      var k := IndexOf(text[1..], p);
      if k == -1 then -1
      else
        assert text[1..][k..k + |p|] == text[k + 1..k + 1 + |p|];
        assert forall j :: 1 <= j < k + 1 ==> text[j..] == text[1..][j - 1..];
        k + 1
  }

  /** `text.replace(p, q)` with a string pattern: only the first occurrence changes. */
  function ReplaceFirst(text: string, p: string, q: string): string
  {
    var i := IndexOf(text, p);
    if i == -1 then text else text[..i] + q + text[i + |p|..]
  }

  /** When `p` first occurs at the end of `stem + p`, replacing its first occurrence replaces that end. */
  lemma ReplaceFirstAtEnd(stem: string, p: string, q: string)
    requires forall j :: 0 <= j < |stem| ==> !StartsWith((stem + p)[j..], p)
    ensures ReplaceFirst(stem + p, p, q) == stem + q
  {
    var text := stem + p;
    assert text[|stem|..|stem| + |p|] == p;
    ContainsAt(text, p, |stem|);
    assert StartsWith(text[|stem|..], p);
    var i := IndexOf(text, p);
    assert StartsWith(text[i..], p);
    assert text[..i] == stem && text[i + |p|..] == [];
  }

  /** `String.prototype.toLowerCase` restricted to ASCII letters. */
  function LowerChar(ch: char): (r: char)
  {
    if 'A' <= ch <= 'Z' then (ch as int + 32) as char else ch
  }

  /** `String.prototype.toUpperCase` restricted to ASCII letters. */
  function UpperChar(ch: char): (r: char)
  {
    if 'a' <= ch <= 'z' then (ch as int - 32) as char else ch
  }

  function Lower(s: string): (r: string)
    ensures |r| == |s| && forall i :: 0 <= i < |s| ==> r[i] == LowerChar(s[i])
  {
    if s == [] then [] else [LowerChar(s[0])] + Lower(s[1..])
  }

  /** `s.charAt(0).toUpperCase() + s.slice(1)` */
  function Capitalize(s: string): (r: string)
    ensures |r| == |s|
    ensures s != [] ==> r[0] == UpperChar(s[0]) && r[1..] == s[1..]
  {
    if s == [] then [] else [UpperChar(s[0])] + s[1..]
  }

  function DigitChar(d: nat): char
    requires d < 10
  {
    ('0' as int + d) as char
  }

  predicate IsDigit(ch: char)
  {
    '0' <= ch <= '9'
  }

  /** The decimal text of a natural number, as `Number.prototype.toString` prints it. */
  function NatToString(n: nat): (r: string)
    ensures |r| >= 1
    ensures forall i :: 0 <= i < |r| ==> IsDigit(r[i])
    ensures n < 10 ==> r == [DigitChar(n)]
  {
    if n < 10 then [DigitChar(n)] else NatToString(n / 10) + [DigitChar(n % 10)]
  }

  /** The decimal text of an integer, with a leading '-' when negative. */
  function IntToString(n: int): (r: string)
    ensures n >= 0 ==> r == NatToString(n)
    ensures n < 0 ==> r == "-" + NatToString(-n)
  {
    if n >= 0 then NatToString(n) else "-" + NatToString(-n)
  }

  /** `s.padStart(width, ch)` */
  function PadStart(s: string, width: nat, ch: char): (r: string)
    ensures |r| == if |s| < width then width else |s|
    ensures EndsWith(r, s)
    ensures forall i :: 0 <= i < |r| - |s| ==> r[i] == ch
  {
    var pad := if |s| >= width then 0 else width - |s|;
    var r := seq(pad, _ => ch) + s;
    assert r[pad..] == s;
    r
  }

  /**
   * `a.localeCompare(b)`, taken as the order of character codes: -1 when `a` sorts
   * first, 1 when `b` does, 0 for equal strings.
   */
  function LocaleCompare(a: string, b: string): (c: int)
    ensures -1 <= c <= 1
    ensures c == 0 <==> a == b
  {
    if a == [] && b == [] then 0
    else if a == [] then -1
    else if b == [] then 1
    else if a[0] < b[0] then -1
    else if a[0] > b[0] then 1
    else
      var c := LocaleCompare(a[1..], b[1..]);
      assert c == 0 ==> a == [a[0]] + a[1..] == [b[0]] + b[1..] == b;
      c
  }

  /** Swapping the arguments of `LocaleCompare` negates the answer. */
  lemma {:induction false} LocaleCompareFlip(a: string, b: string)
    ensures LocaleCompare(b, a) == -LocaleCompare(a, b)
  {
    if a != [] && b != [] && a[0] == b[0] {
      LocaleCompareFlip(a[1..], b[1..]);
    }
  }

  /** "Sorts no later than" under `LocaleCompare` is transitive. */
  lemma {:induction false} LocaleCompareTrans(a: string, b: string, c: string)
    requires LocaleCompare(a, b) <= 0 && LocaleCompare(b, c) <= 0
    ensures LocaleCompare(a, c) <= 0
  {
    if a != [] && b != [] && c != [] && a[0] == b[0] && b[0] == c[0] {
      LocaleCompareTrans(a[1..], b[1..], c[1..]);
    }
  }

  /** `StrWhiteSpaceChar`: the white space and line terminators `parseInt` and `trim` skip. */
  predicate IsJsSpace(c: char)
  {
    var n := c as int;
    (0x09 <= n <= 0x0D) || n == 0x20 || n == 0xA0 || n == 0x1680 || (0x2000 <= n <= 0x200A)
    || n == 0x2028 || n == 0x2029 || n == 0x202F || n == 0x205F || n == 0x3000 || n == 0xFEFF
  }

  function TrimStart(s: string): (r: string)
    ensures |r| <= |s| && r == s[|s| - |r|..]
    ensures r != [] ==> !IsJsSpace(r[0])
  {
    if s != [] && IsJsSpace(s[0]) then TrimStart(s[1..]) else s
  }

  function TrimEnd(s: string): (r: string)
    ensures |r| <= |s| && r == s[..|r|]
    ensures r != [] ==> !IsJsSpace(r[|r| - 1])
  {
    if s != [] && IsJsSpace(s[|s| - 1]) then TrimEnd(s[..|s| - 1]) else s
  }

  /** `s.trim()`: white space and line terminators removed at both ends. */
  function Trim(s: string): (r: string)
    ensures |r| <= |s|
    ensures r != [] ==> !IsJsSpace(r[0]) && !IsJsSpace(r[|r| - 1])
  {
    var t := TrimStart(s);
    var r := TrimEnd(t);
    assert r != [] ==> r[0] == t[0];
    r
  }
}
