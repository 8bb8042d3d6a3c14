/** Tab-separated lines: `Join` is how the list command lays out one table line
    (the `%s\t%s...` template and the tab-joined column names), and `Split` is
    the reader of such a line, its inverse on tab-free fields. */
module TabSeparated {

  /** The column delimiter of the list output. */
  const Tab: char := '\t'

  /** `t` ends with `s`. */
  predicate EndsWith(t: string, s: string) {
    |s| <= |t| && t[|t| - |s|..] == s
  }

  /** The fields, in order, with one tab between neighbours. */
  function Join(fields: seq<string>): string {
    if |fields| == 0 then ""
    else if |fields| == 1 then fields[0]
    else fields[0] + [Tab] + Join(fields[1..])
  }

  /** A line of two or more fields starts with the first field and a tab, and
      ends with a tab and the last field. */
  lemma {:induction false} JoinEnds(fields: seq<string>)
    requires |fields| >= 2
    ensures fields[0] + [Tab] <= Join(fields)
    ensures EndsWith(Join(fields), [Tab] + fields[|fields| - 1])
  {
    var rest := fields[1..];
    assert rest[|rest| - 1] == fields[|fields| - 1];
    if |rest| >= 2 {
      JoinEnds(rest);
    }
  }

  /** Joining fields without newlines gives a single line. */
  lemma {:induction false} JoinNoNewline(fields: seq<string>)
    requires forall k :: 0 <= k < |fields| ==> '\n' !in fields[k]
    ensures '\n' !in Join(fields)
  {
    if |fields| >= 2 {
      JoinNoNewline(fields[1..]);
    }
  }

  /** The tab-free pieces of `line`, in order; a line without tabs is one field. */
  function Split(line: string): (fields: seq<string>)
    ensures |fields| >= 1
    ensures forall k :: 0 <= k < |fields| ==> Tab !in fields[k]
    decreases |line|
  {
    if |line| == 0 then [""]
    else
      var rest := Split(line[1..]);
      if line[0] == Tab then [""] + rest
      else [[line[0]] + rest[0]] + rest[1..]
  }

  /** A tab-free string is a single field. */
  lemma {:induction false} SplitTabFree(s: string)
    requires Tab !in s
    ensures Split(s) == [s]
    decreases |s|
  {
    if |s| > 0 {
      SplitTabFree(s[1..]);
      assert [s[0]] + s[1..] == s;
    }
  }

  /** Splitting a tab-free field followed by a tab peels that field off. */
  lemma {:induction false} SplitAfterField(f: string, t: string)
    requires Tab !in f
    ensures Split(f + [Tab] + t) == [f] + Split(t)
    decreases |f|
  {
    var s := f + [Tab] + t;
    if |f| == 0 {
      assert s[1..] == t;
    } else {
      assert s[1..] == f[1..] + [Tab] + t;
      SplitAfterField(f[1..], t);
      assert [f[0]] + f[1..] == f;
    }
  }

  /** Round trip: a line joined from tab-free fields splits back into exactly
      those fields. */
  lemma {:induction false} SplitJoin(fields: seq<string>)
    requires |fields| >= 1
    requires forall k :: 0 <= k < |fields| ==> Tab !in fields[k]
    ensures Split(Join(fields)) == fields
  {
    if |fields| == 1 {
      SplitTabFree(fields[0]);
    } else {
      SplitJoin(fields[1..]);
      SplitAfterField(fields[0], Join(fields[1..]));
      assert [fields[0]] + fields[1..] == fields;
    }
  }

  /** Joining a field in front of at least one more field adds it and a tab. */
  lemma JoinCons(field: string, rest: seq<string>)
    requires |rest| >= 1
    ensures Join([field] + rest) == field + [Tab] + Join(rest)
  {
  }

  /** Round trip the other way: joining the pieces of any line gives the line
      back, so no line is lost or altered by reading it as fields. */
  lemma {:induction false} JoinSplit(line: string)
    ensures Join(Split(line)) == line
    decreases |line|
  {
    if |line| > 0 {
      var rest := Split(line[1..]);
      JoinSplit(line[1..]);
      if line[0] == Tab {
        assert ([""] + rest)[1..] == rest;
      } else {
        var fields := [[line[0]] + rest[0]] + rest[1..];
        if |rest| >= 2 {
          JoinCons([line[0]] + rest[0], rest[1..]);
          JoinCons(rest[0], rest[1..]);
          assert [rest[0]] + rest[1..] == rest;
        }
        assert [line[0]] + line[1..] == line;
      }
    }
  }
}
