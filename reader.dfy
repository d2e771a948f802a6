/**
 * java.io.BufferedReader over the characters a client has sent: readLine, read into
 * a char array, and ready. The text is the whole of what arrives on the connection;
 * the reader's position is how much of it has been consumed.
 */
module Reader {
  import opened Wrappers

  /** readLine ends a line at a line feed, a carriage return, or both in that order. */
  predicate IsLineEnd(c: char) {
    c == '\n' || c == '\r'
  }

  /** The index of the first line terminator at or after i, or |text| if there is none. */
  function LineEnd(text: string, i: nat): (e: nat)
    requires i <= |text|
    ensures i <= e <= |text|
    ensures forall j :: i <= j < e ==> !IsLineEnd(text[j])
    ensures e < |text| ==> IsLineEnd(text[e])
    decreases |text| - i
  {
    if i == |text| || IsLineEnd(text[i]) then i else LineEnd(text, i + 1)
  }

  /** Where reading resumes after the terminator that starts at e. */
  function AfterTerminator(text: string, e: nat): nat
    requires e <= |text|
  {
    if e == |text| then e
    else if text[e] == '\r' && e + 1 < |text| && text[e + 1] == '\n' then e + 2
    else e + 1
  }

  /** BufferedReader.readLine at position pos: the line without its terminator and the
      position after it, or None once everything has been read. */
  function NextLine(text: string, pos: nat): (r: Option<(string, nat)>)
    requires pos <= |text|
    ensures r.None? <==> pos == |text|
    ensures r.Some? ==> pos < r.value.1 <= |text|
  {
    if pos == |text| then None
    else
      var e := LineEnd(text, pos);
      Some((text[pos..e], AfterTerminator(text, e)))
  }

  /** Reading a line loses nothing: what was consumed is the line followed by one
      terminator ("\n", "\r", "\r\n", or none at the very end), and the line holds no
      terminator. A lone "\r" is never followed by a "\n". */
  lemma NextLineConsumes(text: string, pos: nat)
    requires pos <= |text|
    requires NextLine(text, pos).Some?
    ensures var (line, p) := NextLine(text, pos).value;
      && (forall i :: 0 <= i < |line| ==> !IsLineEnd(line[i]))
      && (text[pos..p] == line || text[pos..p] == line + "\n"
          || text[pos..p] == line + "\r" || text[pos..p] == line + "\r\n")
      && (text[pos..p] == line ==> p == |text|)
      && (text[pos..p] == line + "\r" ==> p == |text| || text[p] != '\n')
  {
    var e := LineEnd(text, pos);
    var p := AfterTerminator(text, e);
    if e < |text| {
      if text[e] == '\r' && e + 1 < |text| && text[e + 1] == '\n' {
        assert text[pos..p] == text[pos..e] + "\r\n";
      } else if text[e] == '\r' {
        assert text[pos..p] == text[pos..e] + "\r";
      } else {
        assert text[pos..p] == text[pos..e] + "\n";
      }
    }
  }

  /** The smaller of two naturals. */
  function Min(a: nat, b: nat): nat {
    if a <= b then a else b
  }

  class BufferedReader {
    /** Everything the client sends. */
    const text: string
    /** How many chars have been consumed. */
    var pos: nat

    predicate Valid()
      reads this
    {
      pos <= |text|
    }

    constructor(text: string)
      ensures this.text == text && pos == 0
      ensures Valid()
    {
      this.text := text;
      pos := 0;
    }

    /** BufferedReader.readLine: None at the end of the stream. */
    method ReadLine() returns (line: Option<string>)
      requires Valid()
      modifies this
      ensures Valid()
      ensures NextLine(text, old(pos)).None? ==> line.None? && pos == old(pos)
      ensures NextLine(text, old(pos)).Some? ==>
                line == Some(NextLine(text, old(pos)).value.0)
                && pos == NextLine(text, old(pos)).value.1
    {
      if pos == |text| {
        return None;
      }
      var i := pos;
      while i < |text| && !IsLineEnd(text[i])
        invariant pos <= i <= |text|
        invariant LineEnd(text, i) == LineEnd(text, pos)
        decreases |text| - i
      {
        i := i + 1;
      }
      line := Some(text[pos..i]);
      if i < |text| && text[i] == '\r' && i + 1 < |text| && text[i + 1] == '\n' {
        pos := i + 2;
      } else if i < |text| {
        pos := i + 1;
      } else {
        pos := i;
      }
    }

    /** BufferedReader.read(cbuf, off, len): copies the next min(len, remaining) chars
        into cbuf from off and leaves the rest of cbuf as it was; the count of chars
        copied, or -1 when a read of at least one char finds the stream at its end. */
    method Read(cbuf: array<char>, off: nat, len: nat) returns (n: int)
      requires Valid()
      requires off + len <= cbuf.Length
      modifies this, cbuf
      ensures Valid()
      ensures pos == old(pos) + Min(len, |text| - old(pos))
      ensures forall i :: 0 <= i < cbuf.Length ==>
                cbuf[i] == if off <= i < off + (pos - old(pos)) then text[old(pos) + i - off]
                           else old(cbuf[i])
      ensures n == if pos == old(pos) && len > 0 then -1 else pos - old(pos)
    {
      var start := pos;
      var k := Min(len, |text| - start);
      var j := 0;
      while j < k
        invariant 0 <= j <= k
        invariant pos == start
        invariant forall i :: 0 <= i < cbuf.Length ==>
                    cbuf[i] == if off <= i < off + j then text[start + i - off] else old(cbuf[i])
      {
        cbuf[off + j] := text[start + j];
        j := j + 1;
      }
      pos := start + k;
      n := if k == 0 && len > 0 then -1 else k;
    }

    /** BufferedReader.ready: true exactly when readLine would return another line. */
    method Ready() returns (r: bool)
      requires Valid()
      ensures r <==> NextLine(text, pos).Some?
    {
      r := pos < |text|;
    }
  }
}
