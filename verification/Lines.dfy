/** The lines of a text file, as Go's `bufio.Scanner` splits them. */
module Lines {

  function IndexOf(text: string, c: char): (i: nat)
    ensures i <= |text|
    ensures i < |text| ==> text[i] == c
    ensures forall j :: 0 <= j < i ==> text[j] != c
  {
    if text == [] || text[0] == c then 0
    else
      var i := IndexOf(text[1..], c);
      assert forall j :: 0 < j < i + 1 ==> text[j] == text[1..][j - 1];
      i + 1
  }

  function DropCR(line: string): string {
    if line != [] && line[|line| - 1] == '\r' then line[..|line| - 1] else line
  }

  /** The lines that the scanner yields: each up to its newline and without a
      carriage return before it, the last one also if no newline ends it. */
  function Scan(text: string): seq<string>
    decreases |text|
  {
    if text == [] then []
    else
      var i := IndexOf(text, '\n');
      if i == |text| then [DropCR(text)]
      else [DropCR(text[..i])] + Scan(text[i + 1..])
  }

  /** Each line followed by a newline. */
  function Join(lines: seq<string>): string {
    if lines == [] then "" else lines[0] + "\n" + Join(lines[1..])
  }

  /** A line that the scanner gives back as it was written. */
  predicate Plain(line: string) {
    '\n' !in line && (line != [] ==> line[|line| - 1] != '\r')
  }

  lemma {:induction false} JoinAppend(a: seq<string>, b: seq<string>)
    ensures Join(a + b) == Join(a) + Join(b)
  {
    if a == [] {
      assert a + b == b;
    } else {
      assert (a + b)[1..] == a[1..] + b;
      JoinAppend(a[1..], b);
    }
  }

  lemma Regroup<T>(a: seq<T>, b: seq<T>, c: seq<T>, d: seq<T>)
    ensures a + b + c + d == a + b + (c + d)
  {}

  /** `r` is `line` without the carriage return it may end in. */
  ghost predicate Stripped(line: string, r: string) {
    line == r + "\r" || (line == r && (r != "" ==> r[|r| - 1] != '\r'))
  }

  /** What is scanned of any text whatever, given as its lines that end in a
      newline and what follows the last of them: each line stripped, and the
      last one too unless nothing is left for it. */
  lemma {:induction false} ScanSplits(raw: seq<string>, last: string)
    requires forall line :: line in raw ==> '\n' !in line
    requires '\n' !in last
    ensures var lines := Scan(Join(raw) + last);
      && |lines| == |raw| + (if last == "" then 0 else 1)
      && (forall i :: 0 <= i < |raw| ==> Stripped(raw[i], lines[i]))
      && (last != "" ==> Stripped(last, lines[|raw|]))
  {
    hide Scan, Stripped, DropCR;
    if raw == [] {
      assert Join(raw) + last == last;
      ScanLast(last);
    } else {
      hide Join;
      var line, rest := raw[0], Join(raw[1..]) + last;
      ScanSplits(raw[1..], last);
      JoinFirst(raw);
      Regroup(line, "\n", Join(raw[1..]), last);
      ScanFirst(line, rest);
      Strips(line);
    }
  }

  lemma Strips(line: string)
    ensures Stripped(line, DropCR(line))
  {
    assert DropCR(line) != line ==> line == DropCR(line) + [line[|line| - 1]];
  }

  lemma ScanLast(last: string)
    requires '\n' !in last
    ensures if last == "" then Scan(last) == [] else |Scan(last)| == 1 && Stripped(last, Scan(last)[0])
  {
    Strips(last);
  }

  lemma JoinFirst(lines: seq<string>)
    requires lines != []
    ensures Join(lines) == lines[0] + "\n" + Join(lines[1..])
  {}

  lemma ScanFirst(line: string, rest: string)
    requires '\n' !in line
    ensures Scan(line + "\n" + rest) == [DropCR(line)] + Scan(rest)
  {
    var text := line + "\n" + rest;
    var i := IndexOf(text, '\n');
    assert text[|line|] == '\n';
    assert forall j :: 0 <= j < |line| ==> text[j] == line[j];
    assert text[..i] == line && text[i + 1..] == rest;
  }

  lemma ScanLine(line: string, rest: string)
    requires Plain(line)
    ensures Scan(line + "\n" + rest) == [line] + Scan(rest)
  {
    ScanFirst(line, rest);
  }

  /** What was written line by line is scanned line by line. */
  lemma {:induction false} ScanJoinThen(lines: seq<string>, more: string)
    requires forall i :: 0 <= i < |lines| ==> Plain(lines[i])
    ensures Scan(Join(lines) + more) == lines + Scan(more)
  {
    if lines == [] {
      assert Join(lines) + more == more;
    } else {
      var line, rest := lines[0], lines[1..];
      ScanJoinThen(rest, more);
      Regroup(line, "\n", Join(rest), more);
      ScanLine(line, Join(rest) + more);
      Regroup([], [line], rest, Scan(more));
      assert [] + [line] + rest == lines;
    }
  }

  lemma ScanJoin(lines: seq<string>)
    requires forall i :: 0 <= i < |lines| ==> Plain(lines[i])
    ensures Scan(Join(lines)) == lines
  {
    ScanJoinThen(lines, "");
    assert Join(lines) + "" == Join(lines);
  }
}
