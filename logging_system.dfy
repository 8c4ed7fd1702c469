/** The bounded log buffer of the logging system (`LogBuffer` in
    logging-system/main.cpp).

    A write copies a message and a newline at the write position, unless that
    would reach the end of the buffer; a flush hands out everything written
    since the last flush and rewinds the position to 0. The atomic position is
    a plain field here; the `_flushing` guard against concurrent flushes is
    not modelled. */
module LoggingSystem {

  /** `BUFFER_SIZE` in the source: one mebibyte. */
  const BUFFER_SIZE: nat := 1024 * 1024

  /** The bytes that `entries` occupy in the buffer: each entry followed by
      a newline. */
  function Framed(entries: seq<seq<char>>): (r: seq<char>)
  {
    if entries == [] then []
    else Framed(entries[..|entries| - 1]) + entries[|entries| - 1] + ['\n']
  }

  /** The total number of bytes `entries` take once framed. */
  function FramedLength(entries: seq<seq<char>>): nat
  {
    if entries == [] then 0
    else FramedLength(entries[..|entries| - 1]) + |entries[|entries| - 1]| + 1
  }

  /** Each entry costs its length plus one newline byte. */
  lemma {:induction false} FramedHasLength(entries: seq<seq<char>>)
    ensures |Framed(entries)| == FramedLength(entries)
  {
    if entries != [] {
      FramedHasLength(entries[..|entries| - 1]);
    }
  }

  /** The text of `s` up to its first newline (all of it when there is none). */
  function FirstLine(s: seq<char>): (l: seq<char>)
    ensures |l| <= |s| && l == s[..|l|]
    ensures '\n' !in l
    ensures |l| < |s| ==> s[|l|] == '\n'
  {
    if s == [] || s[0] == '\n' then [] else [s[0]] + FirstLine(s[1..])
  }

  /** Splits flushed output back into its entries: every line, each of them
      ended by a newline. */
  function Lines(s: seq<char>): seq<seq<char>>
    decreases |s|
  {
    var l := FirstLine(s);
    if |l| < |s| then [l] + Lines(s[|l| + 1..]) else []
  }

  lemma {:induction false} FirstLineOf(e: seq<char>, rest: seq<char>)
    requires '\n' !in e
    ensures FirstLine(e + ['\n'] + rest) == e
  {
    if e != [] {
      assert (e + ['\n'] + rest)[1..] == e[1..] + ['\n'] + rest;
      FirstLineOf(e[1..], rest);
    }
  }

  lemma {:induction false} LinesOfFramedSuffix(e: seq<char>, rest: seq<char>)
    requires '\n' !in e
    ensures Lines(e + ['\n'] + rest) == [e] + Lines(rest)
  {
    FirstLineOf(e, rest);
    assert (e + ['\n'] + rest)[|e| + 1..] == rest;
  }

  /** The frame of `entries` written as a head entry and the rest. */
  lemma {:induction false} FramedFront(entries: seq<seq<char>>)
    requires entries != []
    ensures Framed(entries) == entries[0] + ['\n'] + Framed(entries[1..])
  {
    var n := |entries|;
    if n > 1 {
      FramedFront(entries[..n - 1]);
      assert entries[..n - 1][1..] == entries[1..][..n - 2];
      assert entries[..n - 1][0] == entries[0];
    } else {
      assert entries[..0] == [];
      assert entries[1..] == [];
    }
  }

  /** Newline framing loses nothing: the flushed bytes of newline-free
      entries split back into exactly those entries, in order. */
  lemma {:induction false} LinesOfFramed(entries: seq<seq<char>>)
    requires forall i :: 0 <= i < |entries| ==> '\n' !in entries[i]
    ensures Lines(Framed(entries)) == entries
    decreases |entries|
  {
    if entries == [] {
      assert FirstLine([]) == [];
    } else {
      FramedFront(entries);
      LinesOfFramedSuffix(entries[0], Framed(entries[1..]));
      LinesOfFramed(entries[1..]);
    }
  }

  /** `LogBuffer`: the heap array `_buffer` and the position `_write_pos`. */
  class LogBuffer {
    const buffer: array<char>
    var writePos: nat
    /** The messages written since the last flush, oldest first. */
    ghost var entries: seq<seq<char>>

    ghost predicate Valid()
      reads this, buffer
    {
      buffer.Length == BUFFER_SIZE && writePos < BUFFER_SIZE &&
      buffer[..writePos] == Framed(entries)
    }

    /** A buffer of `BUFFER_SIZE` bytes with the write position at 0. */
    constructor ()
      ensures Valid() && fresh(buffer)
      ensures writePos == 0 && entries == []
    {
      buffer := new char[BUFFER_SIZE];
      writePos := 0;
      entries := [];
    }

    /** `write(msg, len)`: rejected, changing nothing, when the message and
        its newline would reach the end of the buffer; otherwise copies
        `msg[..len]` and a newline at the write position and moves the
        position past them, keeping everything written before. */
    method Write(msg: seq<char>, len: nat) returns (ok: bool)
      requires Valid()
      requires len <= |msg|
      modifies this, buffer
      ensures Valid()
      ensures ok <==> old(writePos) + len + 1 < BUFFER_SIZE
      ensures ok ==> (buffer[..] == old(buffer[..writePos]) + msg[..len] + ['\n']
                                    + old(buffer[writePos + len + 1..])
                      && writePos == old(writePos) + len + 1
                      && entries == old(entries) + [msg[..len]])
      ensures !ok ==> (buffer[..] == old(buffer[..])
                       && writePos == old(writePos) && entries == old(entries))
    {
      var pos := writePos;
      var newPos := pos + len + 1;
      if newPos >= BUFFER_SIZE {
        return false;
      }
      forall i | 0 <= i < len {
        buffer[pos + i] := msg[i];
      }
      buffer[pos + len] := '\n';
      writePos := newPos;
      entries := entries + [msg[..len]];
      assert entries[..|entries| - 1] == old(entries);
      assert buffer[..] == old(buffer[..pos]) + msg[..len] + ['\n'] + old(buffer[newPos..]);
      assert buffer[..writePos] == old(buffer[..pos]) + msg[..len] + ['\n'];
      ok := true;
    }

    /** `flush`: hands out the bytes `[0, writePos)`, which are the entries
        written since the last flush, and rewinds the position to 0; with
        nothing written it hands out nothing and changes nothing. */
    method Flush() returns (emitted: seq<char>)
      requires Valid()
      modifies this
      ensures Valid()
      ensures emitted == old(buffer[..writePos]) && emitted == Framed(old(entries))
      ensures writePos == 0 && entries == []
    {
      var pos := writePos;
      if pos > 0 {
        emitted := buffer[..pos];
        writePos := 0;
        entries := [];
      } else {
        emitted := [];
        assert Framed(entries) == [];
        assert entries == [] by {
          if entries != [] {
            FramedHasLength(entries);
          }
        }
      }
    }
  }
}
