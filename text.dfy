/**
  Newline-separated text: `Join` glues lines with "\n" between them and
  `Split` cuts text at every "\n" (as Go's `strings.Split(s, "\n")` does),
  so the lines of a rendered message can be stated exactly.
 */
module Text {

  /** `s` contains no line break. */
  predicate SingleLine(s: string) {
    forall i :: 0 <= i < |s| ==> s[i] != '\n'
  }

  /** The lines separated by "\n"; the empty list is the empty text. */
  function Join(lines: seq<string>): string {
    if |lines| == 0 then ""
    else if |lines| == 1 then lines[0]
    else lines[0] + "\n" + Join(lines[1..])
  }

  /** A line followed by at least one more: the line, a break, and the rest joined. */
  lemma JoinCons(line: string, rest: seq<string>)
    requires |rest| > 0
    ensures Join([line] + rest) == line + "\n" + Join(rest)
  {
    assert ([line] + rest)[1..] == rest;
  }

  /** The pieces of `s` between line breaks; never empty. */
  ghost function Split(s: string): (lines: seq<string>)
    ensures |lines| > 0
    ensures |lines| == 1 <==> SingleLine(s)
  {
    if |s| == 0 then [""]
    else if s[0] == '\n' then [""] + Split(s[1..])
    else
      var rest := Split(s[1..]);
      [[s[0]] + rest[0]] + rest[1..]
  }

  /** Appending one line to a non-empty list of lines. */
  lemma {:induction false} JoinSnoc(lines: seq<string>, last: string)
    requires |lines| > 0
    ensures Join(lines + [last]) == Join(lines) + ("\n" + last)
  {
    if |lines| > 1 {
      JoinSnoc(lines[1..], last);
      assert (lines + [last])[1..] == lines[1..] + [last];
    }
  }

  /** A leading single-line piece joins onto the first line of what follows. */
  lemma {:induction false} SplitAfterSingleLine(a: string, t: string)
    requires SingleLine(a)
    ensures Split(a + t) == [a + Split(t)[0]] + Split(t)[1..]
  {
    var lines := Split(t);
    if |a| == 0 {
      assert a + t == t && a + lines[0] == lines[0];
      assert [lines[0]] + lines[1..] == lines;
    } else {
      SplitAfterSingleLine(a[1..], t);
      assert (a + t)[0] == a[0] && (a + t)[1..] == a[1..] + t;
      assert [a[0]] + (a[1..] + lines[0]) == a + lines[0];
    }
  }

  /** Splitting joined single-line pieces gives the pieces back. */
  lemma {:induction false} SplitJoin(lines: seq<string>)
    requires |lines| > 0
    requires forall k :: 0 <= k < |lines| ==> SingleLine(lines[k])
    ensures Split(Join(lines)) == lines
  {
    if |lines| == 1 {
      SplitAfterSingleLine(lines[0], "");
      assert lines[0] + "" == lines[0];
    } else {
      var rest := Join(lines[1..]);
      SplitJoin(lines[1..]);
      assert ("\n" + rest)[1..] == rest;
      assert Split("\n" + rest) == [""] + lines[1..];
      assert lines[0] + "\n" + rest == lines[0] + ("\n" + rest);
      SplitAfterSingleLine(lines[0], "\n" + rest);
      assert lines[0] + "" == lines[0];
      assert [lines[0]] + lines[1..] == lines;
    }
  }

  /** Text made of two single-line pieces is single-line. */
  lemma SingleLineAppend(a: string, b: string)
    requires SingleLine(a) && SingleLine(b)
    ensures SingleLine(a + b)
  {
    forall i | 0 <= i < |a + b| ensures (a + b)[i] != '\n' {
      if i >= |a| {
        assert (a + b)[i] == b[i - |a|];
      }
    }
  }
}
