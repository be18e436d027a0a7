/**
 The handful of Python `str` built-ins the converter relies on: `find`,
 `rstrip` (with `isspace`), single-character `replace`, `split` on a
 separator and the line splitting done by `readlines`. Each is given a
 contract that characterises its result independently of its definition.
 */
module Strings {

  /** True iff `sub` occurs in `s` starting at index `i`. */
  predicate OccursAt(s: string, sub: string, i: int)
  {
    0 <= i && i + |sub| <= |s| && s[i..i + |sub|] == sub
  }

  /** True iff `sub` occurs anywhere in `s` (Python's `sub in s`). */
  ghost predicate Contains(s: string, sub: string)
  {
    exists i :: OccursAt(s, sub, i)
  }

  /** Python's `s.find(sub)`: the lowest index at which `sub` occurs, or -1
      (see `FindSpec`). */
  function Find(s: string, sub: string): (r: int)
    ensures -1 <= r <= |s|
  {
    FindFrom(s, sub, 0)
  }

  /** The search of `Find` from index `i` onwards. */
  function FindFrom(s: string, sub: string, i: nat): (r: int)
    requires i <= |s|
    ensures r == -1 || i <= r <= |s|
    decreases |s| - i
  {
    if i + |sub| > |s| then -1
    else if s[i..i + |sub|] == sub then i
    else FindFrom(s, sub, i + 1)
  }

  /** `FindFrom` returns the first occurrence at or after `i`, or -1 when there is none. */
  lemma {:induction false} FindFromSpec(s: string, sub: string, i: nat)
    requires i <= |s|
    ensures var r := FindFrom(s, sub, i);
      && (r == -1 <==> forall j :: i <= j ==> !OccursAt(s, sub, j))
      && (r != -1 ==> OccursAt(s, sub, r))
      && (forall j :: i <= j < r ==> !OccursAt(s, sub, j))
    decreases |s| - i
  {
    if i + |sub| > |s| {
    } else if s[i..i + |sub|] == sub {
      assert OccursAt(s, sub, i);
    } else {
      FindFromSpec(s, sub, i + 1);
    }
  }

  /** `Find` returns -1 exactly when `sub` does not occur, and otherwise the
      lowest index at which it occurs. */
  lemma FindSpec(s: string, sub: string)
    ensures Find(s, sub) == -1 <==> !Contains(s, sub)
    ensures Find(s, sub) != -1 ==> OccursAt(s, sub, Find(s, sub))
    ensures forall j :: 0 <= j < Find(s, sub) ==> !OccursAt(s, sub, j)
  {
    FindFromSpec(s, sub, 0);
  }

  /** Python's `str.isspace` for one character: the ASCII controls \t \n \v \f \r,
      the separators U+001C..U+001F, space, and the Unicode whitespace code points. */
  predicate IsSpace(c: char)
  {
    var n := c as int;
    || 0x09 <= n <= 0x0D
    || 0x1C <= n <= 0x20
    || n == 0x85 || n == 0xA0 || n == 0x1680
    || 0x2000 <= n <= 0x200A
    || n == 0x2028 || n == 0x2029 || n == 0x202F || n == 0x205F || n == 0x3000
  }

  /** Python's `s.rstrip()`: `s` without its trailing whitespace. */
  function RStrip(s: string): (r: string)
    ensures r <= s
    ensures forall i :: |r| <= i < |s| ==> IsSpace(s[i])
    ensures r == [] || !IsSpace(r[|r| - 1])
  {
    if s == [] then []
    else if IsSpace(s[|s| - 1]) then RStrip(s[..|s| - 1])
    else s
  }

  /** Number of occurrences of `c` in `s`. */
  function Count(s: string, c: char): nat
  {
    if s == [] then 0 else (if s[0] == c then 1 else 0) + Count(s[1..], c)
  }

  /** Python's `s.replace(c, rep)` for a one-character pattern `c`. */
  function ReplaceChar(s: string, c: char, rep: string): (r: string)
    ensures |r| == |s| + Count(s, c) * (|rep| - 1)
  {
    if s == [] then []
    else (if s[0] == c then rep else [s[0]]) + ReplaceChar(s[1..], c, rep)
  }

  /** A one-character string under one replace pass. */
  lemma ReplaceCharSingle(c: char, x: char, rep: string)
    ensures ReplaceChar([c], x, rep) == if c == x then rep else [c]
  {
    assert [c][1..] == [];
  }

  /** The characters after a pass: the other characters of `s`, and those of
      `rep` when `c` occurred. */
  lemma {:induction false} ReplaceCharChars(s: string, c: char, rep: string)
    ensures forall x :: x in ReplaceChar(s, c, rep) <==> (x in s && x != c) || (c in s && x in rep)
    decreases |s|
  {
    if s != [] {
      ReplaceCharChars(s[1..], c, rep);
      assert s == [s[0]] + s[1..];
    }
  }

  /** Replacing a character distributes over concatenation. */
  lemma {:induction false} ReplaceCharAppend(a: string, b: string, c: char, rep: string)
    ensures ReplaceChar(a + b, c, rep) == ReplaceChar(a, c, rep) + ReplaceChar(b, c, rep)
    decreases |a|
  {
    if a == [] {
      assert a + b == b;
    } else {
      assert (a + b)[1..] == a[1..] + b;
      ReplaceCharAppend(a[1..], b, c, rep);
    }
  }

  /** Replacing a character that does not occur changes nothing. */
  lemma {:induction false} ReplaceCharAbsent(s: string, c: char, rep: string)
    requires c !in s
    ensures ReplaceChar(s, c, rep) == s
    decreases |s|
  {
    if s != [] {
      assert s == [s[0]] + s[1..];
      ReplaceCharAbsent(s[1..], c, rep);
    }
  }

  /** Python's `s.split(sep)` for a one-character separator: always at least one
      part, and the parts are the maximal separator-free pieces of `s`. */
  function Split(s: string, sep: char): (parts: seq<string>)
    ensures |parts| == Count(s, sep) + 1
    ensures forall i :: 0 <= i < |parts| ==> sep !in parts[i]
  {
    if s == [] then [[]]
    else if s[0] == sep then [[]] + Split(s[1..], sep)
    else
      var rest := Split(s[1..], sep);
      [[s[0]] + rest[0]] + rest[1..]
  }

  /** Python's `sep.join(parts)`. */
  function Join(parts: seq<string>, sep: char): (r: string)
    ensures |parts| >= 1 ==> |r| == SumLen(parts) + |parts| - 1
  {
    if parts == [] then []
    else if |parts| == 1 then parts[0]
    else parts[0] + [sep] + Join(parts[1..], sep)
  }

  /** Joining the parts of a split gives the original string back. */
  lemma {:induction false} JoinSplit(s: string, sep: char)
    ensures Join(Split(s, sep), sep) == s
    decreases |s|
  {
    if s == [] {
    } else if s[0] == sep {
      var rest := Split(s[1..], sep);
      JoinSplit(s[1..], sep);
      assert Split(s, sep) == [[]] + rest;
      assert Join([[]] + rest, sep) == [] + [sep] + Join(rest, sep);
      assert s == [sep] + s[1..];
    } else {
      var rest := Split(s[1..], sep);
      var head := [s[0]] + rest[0];
      JoinSplit(s[1..], sep);
      assert Split(s, sep) == [head] + rest[1..];
      assert s == [s[0]] + s[1..];
      if |rest| == 1 {
        assert Join([head], sep) == head;
      } else {
        var tail := Join(rest[1..], sep);
        assert s[1..] == rest[0] + [sep] + tail;
        assert Join([head] + rest[1..], sep) == head + [sep] + tail;
      }
    }
  }

  /** Splitting a join of separator-free parts gives the parts back. */
  lemma {:induction false} SplitJoin(parts: seq<string>, sep: char)
    requires |parts| >= 1
    requires forall i :: 0 <= i < |parts| ==> sep !in parts[i]
    ensures Split(Join(parts, sep), sep) == parts
    decreases |parts|, |parts[0]|
  {
    if |parts| == 1 {
      SplitNoSep(parts[0], sep);
    } else if parts[0] == [] {
      SplitJoin(parts[1..], sep);
      SplitJoinEmptyHead(parts, sep);
    } else {
      var p := parts[0];
      var shorter := [p[1..]] + parts[1..];
      assert sep !in shorter[0];
      assert forall i :: 1 <= i < |shorter| ==> shorter[i] == parts[i];
      SplitJoin(shorter, sep);
      SplitJoinLongHead(parts, sep);
    }
  }

  /** The step of `SplitJoin` for an empty first part. */
  lemma SplitJoinEmptyHead(parts: seq<string>, sep: char)
    requires |parts| >= 2 && parts[0] == []
    requires Split(Join(parts[1..], sep), sep) == parts[1..]
    ensures Split(Join(parts, sep), sep) == parts
  {
    var rest := parts[1..];
    var j := Join(parts, sep);
    assert j == [] + [sep] + Join(rest, sep);
    assert j[0] == sep && j[1..] == Join(rest, sep);
    assert parts == [[]] + rest;
  }

  /** The step of `SplitJoin` for a non-empty first part: its first character
      is moved in front of the join of the others. */
  lemma SplitJoinLongHead(parts: seq<string>, sep: char)
    requires |parts| >= 2 && parts[0] != [] && parts[0][0] != sep
    requires Split(Join([parts[0][1..]] + parts[1..], sep), sep) == [parts[0][1..]] + parts[1..]
    ensures Split(Join(parts, sep), sep) == parts
  {
    var p := parts[0];
    var shorter := [p[1..]] + parts[1..];
    var js := Join(shorter, sep);
    assert shorter[1..] == parts[1..];
    assert js == p[1..] + [sep] + Join(parts[1..], sep);
    var j := Join(parts, sep);
    assert j == [p[0]] + js;
    assert j[0] == p[0] && j[1..] == js;
    assert [p[0]] + p[1..] == p;
    assert parts == [p] + parts[1..];
  }

  /** A separator-free string splits into itself alone. */
  lemma {:induction false} SplitNoSep(s: string, sep: char)
    requires sep !in s
    ensures Split(s, sep) == [s]
    decreases |s|
  {
    if s != [] {
      assert s[0] in s;
      assert forall x :: x in s[1..] ==> x in s;
      SplitNoSep(s[1..], sep);
      assert s == [s[0]] + s[1..];
    }
  }

  /** The concatenation of a sequence of strings. */
  function Concat(lines: seq<string>): string
  {
    if lines == [] then [] else lines[0] + Concat(lines[1..])
  }

  /** Sum of the lengths of a sequence of strings. */
  function SumLen(lines: seq<string>): nat
  {
    if lines == [] then 0 else |lines[0]| + SumLen(lines[1..])
  }

  /** A well-formed line list: every line is non-empty, ends with '\n' unless it
      is the last, and holds no '\n' before its end. */
  ghost predicate LineSplit(lines: seq<string>)
  {
    && (forall i :: 0 <= i < |lines| ==> lines[i] != [])
    && (forall i :: 0 <= i < |lines| - 1 ==> lines[i][|lines[i]| - 1] == '\n')
    && (forall i, j :: 0 <= i < |lines| && 0 <= j < |lines[i]| - 1 ==> lines[i][j] != '\n')
  }

  /** `readlines()` on text whose line ends are '\n': the text cut after every
      '\n', each piece keeping its terminator, the last one possibly without. */
  function ReadLines(text: string): (lines: seq<string>)
    ensures Concat(lines) == text
    ensures LineSplit(lines)
    ensures |lines| == 0 <==> text == []
  {
    if text == [] then []
    else if text[0] == '\n' then
      var rest := ReadLines(text[1..]);
      LineSplitNewline(rest);
      [['\n']] + rest
    else
      var rest := ReadLines(text[1..]);
      if rest == [] then [text]
      else
        LineSplitExtend(text[0], rest);
        ConcatExtend(text[0], rest);
        [[text[0]] + rest[0]] + rest[1..]
  }

  /** A lone "\n" line in front of a cut keeps it a cut. */
  lemma LineSplitNewline(rest: seq<string>)
    requires LineSplit(rest)
    ensures LineSplit([['\n']] + rest)
  {
    var lines := [['\n']] + rest;
    assert forall i :: 1 <= i < |lines| ==> lines[i] == rest[i - 1];
  }

  /** A character other than '\n' in front of the first line of a cut keeps it a cut. */
  lemma LineSplitExtend(c: char, rest: seq<string>)
    requires c != '\n' && rest != [] && LineSplit(rest)
    ensures LineSplit([[c] + rest[0]] + rest[1..])
  {
    var first := [c] + rest[0];
    var lines := [first] + rest[1..];
    forall i | 0 <= i < |lines| - 1
      ensures lines[i][|lines[i]| - 1] == '\n'
    {
      assert lines[i] == if i == 0 then first else rest[i];
    }
    forall i, j | 0 <= i < |lines| && 0 <= j < |lines[i]| - 1
      ensures lines[i][j] != '\n'
    {
      if i == 0 {
        assert j == 0 || first[j] == rest[0][j - 1];
      } else {
        assert lines[i] == rest[i];
      }
    }
  }

  /** A character put in front of the first line is put in front of the text. */
  lemma ConcatExtend(c: char, rest: seq<string>)
    requires rest != []
    ensures Concat([[c] + rest[0]] + rest[1..]) == [c] + Concat(rest)
  {
    var lines := [[c] + rest[0]] + rest[1..];
    assert lines[1..] == rest[1..];
  }

  /** The characters counted line by line are the characters of the joined lines. */
  lemma {:induction false} SumLenConcat(lines: seq<string>)
    ensures SumLen(lines) == |Concat(lines)|
    decreases |lines|
  {
    if lines != [] {
      SumLenConcat(lines[1..]);
    }
  }
}
