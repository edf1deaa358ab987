/** `FileReadStream`: a file seen through a buffer that is refilled as it is read. */
module FileStream {
  import opened Bytes

  class FileReadStream {
    const file: Text
    const buffer: array<byte>
    ghost var filePos: nat
    var unread: Text
    var bufferLast: int
    var current: nat
    var readCount: nat
    var count: nat
    var eof: bool

    /** The buffer holds the stretch of the file from `count` on; behind the last byte of the file
        stands NUL. */
    ghost predicate Valid()
      reads this, buffer
    {
      && buffer.Length >= 4 && readCount <= buffer.Length && 0 <= current <= bufferLast < buffer.Length
      && count + readCount == filePos <= |file| && unread == file[filePos..]
      && buffer[..readCount] == file[count..filePos]
      && (if eof then readCount < buffer.Length && bufferLast == readCount && buffer[readCount] == NUL &&
          filePos == |file|
          else bufferLast == readCount - 1)
    }

    constructor (file: Text, buffer: array<byte>)
      requires buffer.Length >= 4
      modifies buffer
      ensures Valid() && this.file == file && this.buffer == buffer && Tell() == 0
    {
      this.file, this.buffer := file, buffer;
      filePos, unread := 0, file;
      bufferLast, current, readCount, count, eof := 0, 0, 0, 0, false;
      new;
      Read();
    }

    function Peek(): byte
      requires Valid()
      reads this, buffer
    {
      buffer[current]
    }

    function Tell(): nat
      reads this
    {
      count + current
    }

    /** Reading the file position is reading the file: the stream is the text with its virtual NUL. */
    lemma PeekIsFile()
      requires Valid()
      ensures Tell() <= |file| && Peek() == Bytes.Peek(file, Tell())
    {
      if current < readCount {
        assert buffer[..readCount][current] == file[count..filePos][current];
      }
    }

    /** Takes a character; at the end of the file the NUL is taken again and again. */
    method Take() returns (c: byte)
      requires Valid()
      modifies this, buffer
      ensures Valid() && c == old(Peek()) == Bytes.Peek(file, old(Tell()))
      ensures Tell() == if old(Tell()) < |file| then old(Tell()) + 1 else |file|
      ensures Peek() == Bytes.Peek(file, Tell())
    {
      PeekIsFile();
      c := buffer[current];
      Read();
      PeekIsFile();
    }

    /** `fread`: as much as fits and is left. */
    method FRead() returns (n: nat)
      requires filePos <= |file| && unread == file[filePos..]
      modifies this`filePos, this`unread, buffer
      ensures n == if |old(unread)| < buffer.Length then |old(unread)| else buffer.Length
      ensures filePos == old(filePos) + n && unread == file[filePos..]
      ensures buffer[..n] == file[old(filePos)..filePos]
    {
      n := if |unread| < buffer.Length then |unread| else buffer.Length;
      for i := 0 to n
        invariant unread == old(unread) && filePos == old(filePos) && buffer[..i] == unread[..i]
      {
        buffer[i] := unread[i];
      }
      assert unread[..n] == file[filePos..filePos + n];
      unread := unread[n..];
      filePos := filePos + n;
    }

    method Read()
      requires Valid() || (count == readCount == current == bufferLast == filePos == 0 && !eof && unread == file &&
          buffer.Length >= 4)
      modifies this, buffer
      ensures Valid()
      ensures !old(Valid()) ==> Tell() == 0
      ensures old(Valid()) ==> Tell() == if old(Tell()) < |file| then old(Tell()) + 1 else old(Tell())
    {
      if current < bufferLast {
        current := current + 1;
      } else if !eof {
        count := count + readCount;
        readCount := FRead();
        bufferLast := readCount - 1;
        current := 0;
        if readCount < buffer.Length {
          buffer[readCount] := NUL;
          bufferLast := bufferLast + 1;
          eof := true;
        }
      }
    }

    /** Four characters ahead, when the buffer holds them. */
    method Peek4() returns (four: Option<Text>)
      requires Valid()
      ensures four.Some? <==> current + 4 <= readCount
      ensures four.Some? ==> Tell() + 4 <= |file| && four.value == file[Tell()..Tell() + 4]
    {
      if current + (if eof then 4 else 3) <= bufferLast {
        four := Some(buffer[current..current + 4]);
        assert buffer[current..current + 4] == buffer[..readCount][current..current + 4];
        assert file[count..filePos][current..current + 4] == file[Tell()..Tell() + 4];
      } else {
        four := None;
      }
    }
  }

  /** Taking characters until a NUL yields the file up to its first NUL, or all of it, whatever the
      buffer's size. */
  method ReadAll(file: Text, buffer: array<byte>) returns (t: Text)
    requires buffer.Length >= 4
    modifies buffer
    ensures t <= file && NUL !in t
    ensures |t| < |file| ==> file[|t|] == NUL
  {
    hide *;
    var s := new FileReadStream(file, buffer);
    s.PeekIsFile();
    t := [];
    while s.Peek() != NUL
      invariant s.Valid() && s.file == file && s.buffer == buffer && fresh(s)
      invariant s.Tell() <= |file| && t == file[..s.Tell()] && s.Peek() == Bytes.Peek(file, s.Tell())
      invariant NUL !in t
      decreases |file| - s.Tell()
    {
      ghost var p := s.Tell();
      var c := s.Take();
      NextCharacter(file, p, c);
      t := t + [c];
    }
    NulIsTheEnd(file, s.Tell());
  }

  lemma NextCharacter(file: Text, p: nat, c: byte)
    requires p <= |file| && Bytes.Peek(file, p) == c != NUL
    ensures p < |file| && file[..p + 1] == file[..p] + [c]
  {
  }

  lemma NulIsTheEnd(file: Text, p: nat)
    requires p <= |file| && Bytes.Peek(file, p) == NUL
    ensures p < |file| ==> file[p] == NUL
  {
  }
}
