/*
 * What the four statistics scripts (beaver_frameinfo.py, beaver_rtpsender.py,
 * beaver_rtpreader.py, beaver_pcmdmonitor.py) share: a space-separated text
 * file whose first line names the columns. Each script keeps a module-level
 * dictionary from the column names it knows to their position (-1 while
 * unknown), fills it from the header line, and reads each later line's
 * fields through it, "0" standing in for a field it cannot find.
 *
 * Python 2 byte strings are modelled as `string`; white space is C's (the
 * same six characters Python 2's str.strip and int remove).
 */
module StatFile {
  import opened CInt
  import opened CText

  // ---------------------------------------------------------------------------
  // str.split(' ') and str.strip()

  /** The first position of c in s, or |s|. */
  function IndexOf(s: string, c: char): (i: nat)
    ensures i <= |s| && (i < |s| ==> s[i] == c) && c !in s[..i]
  {
    if s == [] then 0 else if s[0] == c then 0 else 1 + IndexOf(s[1..], c)
  }

  /** The pieces joined back with single spaces. */
  function Join(parts: seq<string>): string
    requires |parts| >= 1
  {
    if |parts| == 1 then parts[0] else parts[0] + " " + Join(parts[1..])
  }

  predicate NoSpaceChar(parts: seq<string>)
  {
    forall i :: 0 <= i < |parts| ==> ' ' !in parts[i]
  }

  /**
   * `line.split(' ')`: the pieces between single spaces, empty ones
   * included; joining them back with spaces gives the line.
   */
  function Split(s: string): (r: seq<string>)
    ensures |r| >= 1 && NoSpaceChar(r) && Join(r) == s
    decreases |s|
  {
    var i := IndexOf(s, ' ');
    if i == |s| then
      assert s[..i] == s;
      [s]
    else
      var rest := Split(s[i + 1..]);
      assert s == s[..i] + " " + s[i + 1..];
      [s[..i]] + rest
  }

  /** Splitting what Join built gives the pieces back. */
  lemma {:induction false} SplitJoin(parts: seq<string>)
    requires |parts| >= 1 && NoSpaceChar(parts)
    ensures Split(Join(parts)) == parts
  {
    var s := Join(parts);
    if |parts| == 1 {
      assert IndexOf(s, ' ') == |s|;
    } else {
      var tail := Join(parts[1..]);
      assert s == parts[0] + " " + tail;
      IndexOfAfter(parts[0], tail);
      assert s[|parts[0]| + 1..] == tail;
      SplitJoin(parts[1..]);
      assert s[..|parts[0]|] == parts[0];
    }
  }

  lemma IndexOfAfter(a: string, b: string)
    requires ' ' !in a
    ensures IndexOf(a + " " + b, ' ') == |a|
  {
    var s := a + " " + b;
    var i := IndexOf(s, ' ');
    assert s[|a|] == ' ';
    assert forall j :: 0 <= j < |a| ==> s[j] == a[j];
  }

  predicate AllSpace(s: string)
  {
    forall i :: 0 <= i < |s| ==> IsSpace(s[i])
  }

  /** Trailing white space removed. */
  function SkipTrailingSpaces(s: string): (r: string)
    ensures |r| <= |s| && r == s[..|r|] && AllSpace(s[|r|..]) && (r != [] ==> !IsSpace(r[|r| - 1]))
  {
    if s != [] && IsSpace(s[|s| - 1]) then
      var r := SkipTrailingSpaces(s[..|s| - 1]);
      assert s[..|s| - 1][..|r|] == s[..|r|];
      assert s[|r|..] == s[..|s| - 1][|r|..] + [s[|s| - 1]];
      r
    else
      assert s[..|s|] == s;
      s
  }

  /** `str.strip()`: white space removed at both ends. */
  function Strip(s: string): (r: string)
    ensures r == [] || (!IsSpace(r[0]) && !IsSpace(r[|r| - 1]))
  {
    var t := SkipSpaces(s);
    var r := SkipTrailingSpaces(t);
    assert r != [] ==> r[0] == t[0];
    r
  }

  lemma {:induction false} SkipSpacesPadded(pre: string, t: string)
    requires AllSpace(pre) && (t == [] || !IsSpace(t[0]))
    ensures SkipSpaces(pre + t) == t
  {
    if pre != [] {
      assert (pre + t)[1..] == pre[1..] + t;
      SkipSpacesPadded(pre[1..], t);
    } else {
      assert pre + t == t;
    }
  }

  lemma {:induction false} SkipTrailingPadded(t: string, post: string)
    requires AllSpace(post) && (t == [] || !IsSpace(t[|t| - 1]))
    ensures SkipTrailingSpaces(t + post) == t
  {
    if post != [] {
      assert (t + post)[..|t + post| - 1] == t + post[..|post| - 1];
      SkipTrailingPadded(t, post[..|post| - 1]);
    } else {
      assert t + post == t;
    }
  }

  /** Strip removes the white space around a text that does not itself start or end with white space, and nothing else. */
  lemma StripPadded(pre: string, t: string, post: string)
    requires AllSpace(pre) && AllSpace(post)
    requires t == [] || (!IsSpace(t[0]) && !IsSpace(t[|t| - 1]))
    ensures Strip(pre + t + post) == t
  {
    if t == [] {
      assert pre + t + post == pre + post;
      SkipSpacesPadded(pre + post, []);
      assert pre + post + [] == pre + post;
    } else {
      assert pre + t + post == pre + (t + post);
      SkipSpacesPadded(pre, t + post);
      SkipTrailingPadded(t, post);
    }
  }

  // ---------------------------------------------------------------------------
  // The column index

  /** The position of the last field of the header that strips to `name`, or -1. */
  function LastMatch(row: seq<string>, name: string): (j: int)
    ensures -1 <= j < |row|
    ensures j == -1 <==> forall i :: 0 <= i < |row| ==> Strip(row[i]) != name
    ensures j >= 0 ==> Strip(row[j]) == name && forall i :: j < i < |row| ==> Strip(row[i]) != name
  {
    if row == [] then -1
    else if Strip(row[|row| - 1]) == name then |row| - 1
    else LastMatch(row[..|row| - 1], name)
  }

  /** The index after the header fields have been looked at, in order. */
  function Resolve(columns: map<string, int>, row: seq<string>): (r: map<string, int>)
    ensures r.Keys == columns.Keys
  {
    if row == [] then columns
    else
      var m := Resolve(columns, row[..|row| - 1]);
      var name := Strip(row[|row| - 1]);
      if name in m then m[name := |row| - 1] else m
  }

  /**
   * A known name ends at the position of the last header field that
   * strips to it; a name the header does not have keeps the position it
   * had, which the index never resets.
   */
  lemma {:induction false} ResolveFinds(columns: map<string, int>, row: seq<string>, name: string)
    requires name in columns
    ensures Resolve(columns, row)[name] == if LastMatch(row, name) >= 0 then LastMatch(row, name) else columns[name]
  {
    if row != [] {
      ResolveFinds(columns, row[..|row| - 1], name);
    }
  }

  /** A script's column dictionary, updated in place by its fill function. */
  class ColumnIndex {
    var columns: map<string, int>

    /** The dictionary as the script declares it: every known name at -1. */
    constructor (names: seq<string>)
      ensures columns == map n | n in names :: -1
    {
      columns := map n | n in names :: -1;
    }

    /**
     * fill*ColIndex on the header line: each field, stripped, that names a
     * known column records its position.
     */
    method Fill(header: string)
      modifies this
      ensures columns == Resolve(old(columns), Split(header))
    {
      var row := Split(header);
      ghost var start := columns;
      for idx := 0 to |row|
        invariant columns == Resolve(start, row[..idx])
      {
        assert row[..idx + 1][..idx] == row[..idx];
        var val := Strip(row[idx]);
        if val in columns {
          columns := columns[val := idx];
        }
      }
      assert row[..|row|] == row;
    }
  }

  // ---------------------------------------------------------------------------
  // Reading a line

  /** The fields of a line (`line.split(' ')` unless the line is empty). */
  function Fields(line: string): seq<string>
  {
    if line == "" then [] else Split(line)
  }

  /** getStringVal: the field under the column, or "0" if the column is unknown or the line too short. */
  function GetStringVal(columns: map<string, int>, row: seq<string>, key: string): (r: string)
    requires key in columns
    ensures columns[key] < 0 || |row| <= columns[key] ==> r == "0"
    ensures 0 <= columns[key] < |row| ==> r == row[columns[key]]
  {
    if columns[key] >= 0 && |row| > columns[key] then row[columns[key]] else "0"
  }

  /** The value the header names: a field read through a filled index is the one under the last header field of that name. */
  lemma ReadsNamedColumn(names: seq<string>, header: string, line: string, key: string)
    requires key in names
    ensures var columns := Resolve(map n | n in names :: -1, Split(header));
      var j := LastMatch(Split(header), key);
      GetStringVal(columns, Fields(line), key) == if 0 <= j < |Fields(line)| then Fields(line)[j] else "0"
  {
    ResolveFinds(map n | n in names :: -1, Split(header), key);
  }

  // ---------------------------------------------------------------------------
  // int()

  /** `int(s)` on a byte string: optional white space, an optional sign, decimal digits, optional white space. */
  function ParseInt(s: string): (r: Option<int>)
  {
    var t := Strip(s);
    if |t| >= 2 && t[0] == '-' && AllDigits(t[1..]) then Some(-(DecimalValue(t[1..]) as int))
    else if |t| >= 2 && t[0] == '+' && AllDigits(t[1..]) then Some(DecimalValue(t[1..]))
    else if |t| >= 1 && AllDigits(t) then Some(DecimalValue(t))
    else None
  }

  /** The decimal digits of n, no leading zero. */
  function Digits(n: nat): (d: string)
    ensures |d| >= 1 && AllDigits(d) && DecimalValue(d) == n
    decreases n
  {
    if n < 10 then
      var d := [DigitChar(n)];
      assert d[..0] == [];
      d
    else
      var d := Digits(n / 10) + [DigitChar(n % 10)];
      assert d[..|d| - 1] == Digits(n / 10);
      d
  }

  /** str(n). */
  function ToDecimal(n: int): string
  {
    if n < 0 then "-" + Digits(-n) else Digits(n)
  }

  /** int() reads back what str() wrote, white space around it or not. */
  lemma IntRoundTrip(pre: string, n: int, post: string)
    requires AllSpace(pre) && AllSpace(post)
    ensures ParseInt(pre + ToDecimal(n) + post) == Some(n)
  {
    var t := ToDecimal(n);
    assert IsDigit(t[|t| - 1]);
    StripPadded(pre, t, post);
    if n < 0 {
      assert t[1..] == Digits(-n);
      assert !AllDigits(t) by { assert !IsDigit(t[0]); }
    }
  }

  /** getIntVal. */
  function GetIntVal(columns: map<string, int>, row: seq<string>, key: string): Option<int>
    requires key in columns
  {
    ParseInt(GetStringVal(columns, row, key))
  }

  /** A column the file does not have reads as 0. */
  lemma MissingColumnReadsZero(columns: map<string, int>, row: seq<string>, key: string)
    requires key in columns && (columns[key] < 0 || |row| <= columns[key])
    ensures GetIntVal(columns, row, key) == Some(0)
  {
    IntRoundTrip([], 0, []);
    assert [] + ToDecimal(0) + [] == "0";
  }

  /**
   * The getters a script calls on one line, in order: their values, or
   * None when one of them raises (int() on text that is not a number).
   */
  function IntVals(columns: map<string, int>, row: seq<string>, keys: seq<string>): (r: Option<seq<int>>)
    requires forall k :: k in keys ==> k in columns
    ensures r.Some? ==> |r.value| == |keys| &&
                        forall i :: 0 <= i < |keys| ==> GetIntVal(columns, row, keys[i]) == Some(r.value[i])
    ensures r.None? <==> exists i :: 0 <= i < |keys| && GetIntVal(columns, row, keys[i]).None?
  {
    if keys == [] then Some([])
    else
      var v := GetIntVal(columns, row, keys[0]);
      var rest := IntVals(columns, row, keys[1..]);
      if v.None? then None
      else if rest.None? then
        var i :| 0 <= i < |keys[1..]| && GetIntVal(columns, row, keys[1..][i]).None?;
        assert GetIntVal(columns, row, keys[i + 1]).None?;
        None
      else
        var r := [v.value] + rest.value;
        assert forall i :: 0 < i < |keys| ==> keys[i] == keys[1..][i - 1];
        Some(r)
  }

  // ---------------------------------------------------------------------------
  // The data lines

  /** What readline returns before the end of the file: never empty. */
  type Line = s: string | s != [] witness "\n"

  /**
   * The integer fields of every data line, in order, as the script's loop
   * reads them: None when int() raises on one of them, on whichever line.
   */
  function ReadAll(columns: map<string, int>, lines: seq<Line>, keys: seq<string>): (r: Option<seq<seq<int>>>)
    requires forall k :: k in keys ==> k in columns
    ensures r.Some? ==> |r.value| == |lines| &&
                        forall i :: 0 <= i < |lines| ==> IntVals(columns, Fields(lines[i]), keys) == Some(r.value[i])
    ensures r.None? <==> exists i :: 0 <= i < |lines| && IntVals(columns, Fields(lines[i]), keys).None?
  {
    if lines == [] then Some([])
    else
      var init := ReadAll(columns, lines[..|lines| - 1], keys);
      var v := IntVals(columns, Fields(lines[|lines| - 1]), keys);
      if init.None? then
        var i :| 0 <= i < |lines| - 1 && IntVals(columns, Fields(lines[..|lines| - 1][i]), keys).None?;
        assert IntVals(columns, Fields(lines[i]), keys).None?;
        None
      else if v.None? then None
      else
        assert forall i :: 0 <= i < |lines| - 1 ==> lines[i] == lines[..|lines| - 1][i];
        Some(init.value + [v.value])
  }

  /** A line int() accepts extends what the lines before it gave. */
  lemma ReadAllSnoc(columns: map<string, int>, lines: seq<Line>, keys: seq<string>, i: nat)
    requires forall key :: key in keys ==> key in columns
    requires i < |lines| && ReadAll(columns, lines[..i], keys).Some? && IntVals(columns, Fields(lines[i]), keys).Some?
    ensures ReadAll(columns, lines[..i + 1], keys) ==
            Some(ReadAll(columns, lines[..i], keys).value + [IntVals(columns, Fields(lines[i]), keys).value])
  {
    assert lines[..i + 1][..i] == lines[..i];
  }

  /** A line int() rejects fails the whole file. */
  lemma ReadAllStops(columns: map<string, int>, lines: seq<Line>, keys: seq<string>, i: nat)
    requires forall key :: key in keys ==> key in columns
    requires i < |lines| && IntVals(columns, Fields(lines[i]), keys).None?
    ensures ReadAll(columns, lines, keys).None?
  {
  }

  // ---------------------------------------------------------------------------
  // Reference values taken once

  /**
   * The first value that differs from `unset`, or `unset` if there is none:
   * what a variable ends as that starts as `unset` and takes the current
   * value while it is still `unset` (the scripts' `if refTime == 0`).
   */
  function FirstSet<T(==)>(xs: seq<T>, unset: T): (r: T)
    ensures r == unset <==> forall i :: 0 <= i < |xs| ==> xs[i] == unset
    ensures r != unset ==> exists j :: 0 <= j < |xs| && xs[j] == r && forall i :: 0 <= i < j ==> xs[i] == unset
  {
    if xs == [] then unset
    else if xs[0] != unset then
      assert xs[0] == xs[0];
      xs[0]
    else
      var r := FirstSet(xs[1..], unset);
      assert forall i :: 0 < i < |xs| ==> xs[i] == xs[1..][i - 1];
      r
  }

  lemma {:induction false} FirstSetSnoc<T>(xs: seq<T>, x: T, unset: T)
    ensures FirstSet(xs + [x], unset) == if FirstSet(xs, unset) == unset then x else FirstSet(xs, unset)
  {
    if xs != [] {
      assert (xs + [x])[1..] == xs[1..] + [x];
      FirstSetSnoc(xs[1..], x, unset);
    }
  }
}
