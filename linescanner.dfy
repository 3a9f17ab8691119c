/** Line splitting as Go's `bufio.Scanner` does it with its default split
    function `ScanLines`: a line ends at '\n', one '\r' just before that end
    (or at the very end of the input) is dropped, the final line needs no
    terminating '\n', and a terminating '\n' at the end of the input does not
    produce an extra empty line. */
module LineScanner {

  /** Index of the first '\n' in `s`, or |s| when there is none. */
  function IndexOfNewline(s: string): (i: nat)
    ensures i <= |s|
    ensures forall k :: 0 <= k < i ==> s[k] != '\n'
    ensures i < |s| ==> s[i] == '\n'
  {
    if s == [] || s[0] == '\n' then 0 else 1 + IndexOfNewline(s[1..])
  }

  /** Removes one trailing carriage return. */
  function DropCR(s: string): string {
    if s != [] && s[|s| - 1] == '\r' then s[..|s| - 1] else s
  }

  /** The lines the scanner yields for `data`, in order. */
  function ScanLines(data: string): (lines: seq<string>)
    ensures forall k :: 0 <= k < |lines| ==> '\n' !in lines[k]
    decreases |data|
  {
    if data == [] then []
    else
      var i := IndexOfNewline(data);
      if i == |data| then [DropCR(data)]
      else [DropCR(data[..i])] + ScanLines(data[i + 1..])
  }

  /** The text of `lines` with every line followed by '\n'. */
  function Terminated(lines: seq<string>): string {
    if lines == [] then [] else lines[0] + "\n" + Terminated(lines[1..])
  }

  /** A line the scanner can yield unchanged: no '\n' inside, no '\r' at the end. */
  predicate IsPlainLine(l: string) {
    '\n' !in l && (l == [] || l[|l| - 1] != '\r')
  }

  lemma IndexOfNewlineAfterLine(l: string, rest: string)
    requires '\n' !in l
    ensures IndexOfNewline(l + "\n" + rest) == |l|
  {
    var s := l + "\n" + rest;
    assert s[|l|] == '\n';
    assert forall k :: 0 <= k < |l| ==> s[k] == l[k];
  }

  /** Writing plain lines out with terminators and scanning them back gives
      the same lines. */
  lemma {:induction false} ScanTerminated(lines: seq<string>)
    requires forall k :: 0 <= k < |lines| ==> IsPlainLine(lines[k])
    ensures ScanLines(Terminated(lines)) == lines
  {
    if lines != [] {
      var l, rest := lines[0], Terminated(lines[1..]);
      var data := l + "\n" + rest;
      assert Terminated(lines) == data;
      IndexOfNewlineAfterLine(l, rest);
      assert data[..|l|] == l;
      assert data[|l| + 1..] == rest;
      ScanTerminated(lines[1..]);
    }
  }

  /** For input without carriage returns, re-terminating the scanned lines
      gives the input back, with a final '\n' added when the input lacked one:
      no line is lost, and no empty line is invented at the end. */
  lemma {:induction false} TerminatedScan(data: string)
    requires '\r' !in data
    ensures Terminated(ScanLines(data))
            == if data == [] || data[|data| - 1] == '\n' then data else data + "\n"
    decreases |data|
  {
    if data != [] {
      var i := IndexOfNewline(data);
      if i == |data| {
        assert data[|data| - 1] != '\n';
        assert ScanLines(data) == [data];
        assert Terminated([data]) == data + "\n" + Terminated([]);
      } else {
        var head, rest := data[..i], data[i + 1..];
        assert data == head + "\n" + rest;
        assert DropCR(head) == head by {
          assert head != [] ==> head[|head| - 1] in data;
        }
        assert '\r' !in rest by {
          assert forall c :: c in rest ==> c in data;
        }
        TerminatedScan(rest);
        var lines := ScanLines(data);
        assert lines == [head] + ScanLines(rest);
        assert lines[1..] == ScanLines(rest);
        if rest != [] {
          assert rest[|rest| - 1] == data[|data| - 1];
        }
      }
    }
  }

  /** The scanner yields one line per '\n' in the input, plus one for a
      final line that has no terminating '\n'. */
  lemma {:induction false} ScanLinesCount(data: string)
    ensures |ScanLines(data)| ==
              multiset(data)['\n'] + (if data != [] && data[|data| - 1] != '\n' then 1 else 0)
    decreases |data|
  {
    if data != [] {
      var i := IndexOfNewline(data);
      if i == |data| {
        assert '\n' !in data;
      } else {
        var head, rest := data[..i], data[i + 1..];
        assert data == head + "\n" + rest;
        assert '\n' !in head;
        ScanLinesCount(rest);
        if rest != [] {
          assert rest[|rest| - 1] == data[|data| - 1];
        }
      }
    }
  }
}
