/** The buffered reader of graphRider, against a plain cursor over the same file. */
module FastReader {

  const BUFSIZE: nat := 2048

  datatype Result = OK | ERROR | DONE

  predicate IsTextChar(c: char) {
    ' ' <= c <= '~' || c == '\t' || c == '\n' || c == '\r'
  }

  predicate EndsLine(c: char) {
    c == '\n' || c == '\r'
  }

  // ----- the plain cursor: pos may lie beyond the end of the file, where there is nothing to read

  function Min(a: int, b: int): int {
    if a < b then a else b
  }

  function PlainRead(file: string, pos: nat, want: nat): string {
    file[Min(pos, |file|)..Min(pos + want, |file|)]
  }

  /** Reading twice is reading once. */
  lemma ReadsJoin(file: string, pos: nat, a: nat, b: nat)
    ensures PlainRead(file, pos, a) + PlainRead(file, pos + a, b) == PlainRead(file, pos, a + b)
  {
  }

  /** How many characters from pos on come before the first line end. */
  function LineLength(file: string, pos: nat): (n: nat)
    ensures n == 0 || pos + n <= |file|
    ensures forall i | pos <= i < pos + n :: !EndsLine(file[i])
    ensures pos + n < |file| ==> EndsLine(file[pos + n])
    decreases |file| - pos
  {
    if pos >= |file| || EndsLine(file[pos]) then 0 else 1 + LineLength(file, pos + 1)
  }

  lemma ReadOne(file: string, pos: nat)
    ensures PlainRead(file, pos, 1) == if pos < |file| then [file[pos]] else ""
  {
  }

  lemma ReadNothing(file: string, pos: nat)
    ensures PlainRead(file, pos, 0) == ""
  {
  }

  class FastReader {
    const file: string
    var filePos: nat        // where the next fread or relative fseek starts
    const savebuf: array<char>
    var saveptr: nat
    var savecount: nat

    /** What is in the buffer, read or not, is what precedes filePos in the file. */
    ghost predicate Valid()
      reads this, savebuf
    {
      && savebuf.Length == BUFSIZE
      && (forall i | 0 <= i < |file| :: IsTextChar(file[i]))
      && (savecount > 0 ==>
            && saveptr + savecount <= BUFSIZE && saveptr + savecount <= filePos <= |file|
            && forall j | 0 <= j < saveptr + savecount :: savebuf[j] == file[filePos - saveptr - savecount + j])
    }

    /** Where an unbuffered reader would be. */
    ghost function Pos(): int
      reads this
    {
      filePos - savecount
    }

    constructor (file: string)
      requires forall i | 0 <= i < |file| :: IsTextChar(file[i])
      ensures Valid() && this.file == file && Pos() == 0
    {
      this.file, filePos, saveptr, savecount := file, 0, 0, 0;
      savebuf := new char[BUFSIZE];
    }

    /** fread: fills the buffer as far as the file goes. */
    method Fill() returns (result: nat)
      requires Valid() && savecount == 0
      modifies this`filePos, savebuf
      ensures filePos == old(filePos) + result && result <= BUFSIZE
      ensures result > 0 ==> filePos <= |file|
      ensures result < BUFSIZE ==> filePos >= |file|
      ensures forall j | 0 <= j < result :: savebuf[j] == file[old(filePos) + j]
    {
      result := if filePos >= |file| then 0 else Min(BUFSIZE, |file| - filePos);
      for i := 0 to result
        invariant filePos == old(filePos)
        invariant forall j | 0 <= j < i :: savebuf[j] == file[filePos + j]
      {
        savebuf[i] := file[filePos + i];
      }
      filePos := filePos + result;
    }

    /** The part of Read that the buffer can serve. */
    method TakeSaved(want: nat) returns (bytes: string)
      requires Valid()
      modifies this`saveptr, this`savecount
      ensures Valid() && bytes == PlainRead(file, old(Pos()), |bytes|)
      ensures |bytes| <= want && Pos() == old(Pos()) + |bytes|
      ensures |bytes| == want || savecount == 0
    {
      bytes := "";
      if savecount != 0 {
        var ncopy := Min(want, savecount);
        assert savebuf[saveptr..saveptr + ncopy] == PlainRead(file, Pos(), ncopy);
        bytes := savebuf[saveptr..saveptr + ncopy];
        savecount := savecount - ncopy;
        saveptr := saveptr + ncopy;
      }
    }

    /** One refill of the empty buffer, and what it can serve at once. */
    method TakeFilled(want: nat) returns (bytes: string)
      requires Valid() && savecount == 0 && want > 0
      modifies this`filePos, this`saveptr, this`savecount, savebuf
      ensures Valid() && bytes == PlainRead(file, old(Pos()), |bytes|)
      ensures |bytes| <= want && Pos() == old(Pos()) + |bytes|
      ensures |bytes| == want || savecount == 0
      ensures bytes == "" ==> PlainRead(file, old(Pos()), want) == ""
    {
      ghost var from := filePos;
      var filled := Fill();
      bytes := "";
      if filled > 0 {
        if !IsTextChar(savebuf[0]) {
          assert false;
        }
        var ncopy := Min(want, filled);
        assert savebuf[..ncopy] == PlainRead(file, from, ncopy);
        bytes := savebuf[..ncopy];
        savecount := filled - ncopy;
        saveptr := ncopy;
      }
    }

    /** Reads what a plain reader would read, and nothing is left to read only at the end of the file. */
    method Read(len: nat) returns (result: Result, bytes: string)
      requires Valid()
      modifies this`filePos, this`saveptr, this`savecount, savebuf
      ensures Valid() && bytes == PlainRead(file, old(Pos()), len)
      ensures Pos() == old(Pos()) + |bytes|
      ensures result == if len > 0 && bytes == "" then DONE else OK
    {
      hide PlainRead;
      ghost var pos := Pos();
      bytes := TakeSaved(len);
      var want: nat := len - |bytes|;
      while want > 0
        invariant Valid() && want + |bytes| == len
        invariant bytes == PlainRead(file, pos, |bytes|)
        invariant Pos() == pos + |bytes|
        invariant want > 0 ==> savecount == 0
      {
        var more := TakeFilled(want);
        ReadsJoin(file, pos, |bytes|, |more|);
        if more == "" {
          ReadsJoin(file, pos, |bytes|, want);
          assert bytes + "" == bytes;
          return if bytes != "" then OK else DONE, bytes;
        }
        bytes := bytes + more;
        want := want - |more|;
      }
      result := OK;
    }

    /** Reads up to the next line end, which is consumed but not returned. A line that fills the buffer is an error;
        a last line without an end is consumed and reported as the end of the file. */
    method Readline(length: nat) returns (result: Result, line: string)
      requires Valid()
      modifies this`filePos, this`saveptr, this`savecount, savebuf
      ensures Valid()
      ensures var pos := old(Pos()); var n := LineLength(file, pos);
        if length <= n then result == ERROR && line == PlainRead(file, pos, length) && Pos() == pos + length
        else if pos + n < |file| then result == OK && line == PlainRead(file, pos, n) && Pos() == pos + n + 1
        else result == DONE && line == PlainRead(file, pos, n) && Pos() == pos + n
    {
      hide PlainRead, LineLength;
      line := "";
      ghost var pos := Pos();
      ghost var n := LineLength(file, pos);
      ReadNothing(file, pos);
      while |line| < length
        invariant Valid() && |line| <= length && |line| <= n
        invariant Pos() == pos + |line| && line == PlainRead(file, pos, |line|)
        decreases length - |line|
      {
        ReadsJoin(file, pos, |line|, 1);
        ReadOne(file, pos + |line|);
        var status, one := Read(1);
        if status == DONE {
          return DONE, line;
        }
        if EndsLine(one[0]) {
          return OK, line;
        }
        line := line + one;
      }
      result := ERROR;
    }

    /** A seek that stays within reach moves where a plain reader would be. One to before the start of the file is
        refused, and then skips whatever was still unread in the buffer. */
    method Seek(offset: int) returns (result: bool)
      requires Valid()
      modifies this`filePos, this`saveptr, this`savecount
      ensures Valid()
      ensures result <==> old(Pos()) + offset >= 0
      ensures result ==> Pos() == old(Pos()) + offset
      ensures !result ==> Pos() == old(Pos()) + old(savecount)  // a refused seek loses what was buffered
    {
      result := true;
      if offset < 0 {
        var rest := offset;
        if savecount != 0 {
          var avail := saveptr;
          if avail >= -offset {
            savecount := savecount - offset;
            saveptr := saveptr + offset;
            rest := 0;
          } else {
            rest := offset - savecount;
            savecount := 0;
          }
        }
        if rest != 0 {
          result := filePos + rest >= 0;
          if result {
            filePos := filePos + rest;
          }
        }
      } else if offset > 0 {
        if offset < savecount {
          savecount := savecount - offset;
          saveptr := saveptr + offset;
        } else {
          if offset > savecount {
            filePos := filePos + (offset - savecount);
          }
          savecount := 0;
        }
      }
    }
  }
}
