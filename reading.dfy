/** The character cursor of reading/char_reader.cpp: a peek/consume reader over a
    byte stream that keeps a lookahead buffer, turns "\r\n" and a lone '\r' into
    '\n' and tags every buffered character with its source position.

    The underlying `std::istream` is modelled as the sequence `input` of its bytes
    and a cursor `pos`; the stream's EOF value is `None`. */
module Reading {
  import opened Util

  /** reading/source_position.hpp: byte offset in the file, number of newlines
      read so far, byte offset in the current line. */
  datatype SourcePosition = SourcePosition(offsetInFile: nat, newlinesCount: nat, offsetInLine: nat)

  /** reading/char_w_source_position.hpp */
  datatype CharWSourcePosition = CharWSourcePosition(c: char, sp: SourcePosition)

  /** The characters a reader delivers for the raw bytes `bytes`: every "\r\n"
      pair and every lone '\r' becomes a single '\n'. */
  function Normalize(bytes: seq<char>): (cs: seq<char>)
    ensures |cs| <= |bytes|
    ensures bytes != [] ==> cs != []
    decreases |bytes|
  {
    if bytes == [] then []
    else if bytes[0] == '\r' then
      ['\n'] + Normalize(if |bytes| > 1 && bytes[1] == '\n' then bytes[2..] else bytes[1..])
    else [bytes[0]] + Normalize(bytes[1..])
  }

  /** No '\r' survives normalisation. */
  lemma {:induction false} NormalizeHasNoCarriageReturn(bytes: seq<char>)
    ensures '\r' !in Normalize(bytes)
    decreases |bytes|
  {
    if bytes != [] {
      if bytes[0] == '\r' {
        NormalizeHasNoCarriageReturn(if |bytes| > 1 && bytes[1] == '\n' then bytes[2..] else bytes[1..]);
      } else {
        NormalizeHasNoCarriageReturn(bytes[1..]);
      }
    }
  }

  /** Input without '\r' is delivered unchanged. */
  lemma {:induction false} NormalizeIdentity(bytes: seq<char>)
    requires '\r' !in bytes
    ensures Normalize(bytes) == bytes
    decreases |bytes|
  {
    if bytes != [] {
      assert bytes[0] != '\r';
      assert '\r' !in bytes[1..];
      NormalizeIdentity(bytes[1..]);
    }
  }

  /** Normalising twice is normalising once. */
  lemma NormalizeIdempotent(bytes: seq<char>)
    ensures Normalize(Normalize(bytes)) == Normalize(bytes)
  {
    NormalizeHasNoCarriageReturn(bytes);
    NormalizeIdentity(Normalize(bytes));
  }

  /** What `peek(k)` answers for the remaining characters `s`: the k-th one, or a
      space once the input is exhausted (reading/char_reader.cpp:68). */
  function PeekAt(s: seq<char>, k: nat): char
  {
    if k < |s| then s[k] else ' '
  }

  /** The characters of a buffer, without their positions. */
  ghost function Chars(b: seq<CharWSourcePosition>): (cs: seq<char>)
    ensures |cs| == |b|
    ensures forall i :: 0 <= i < |b| ==> cs[i] == b[i].c
  {
    seq(|b|, i requires 0 <= i < |b| => b[i].c)
  }

  /** The bytes at `p` and `p + 1` are a "\r\n" pair. */
  predicate IsCrLf(input: seq<char>, p: nat)
  {
    p + 1 < |input| && input[p] == '\r' && input[p + 1] == '\n'
  }

  /** Characters in strictly increasing order of their offsets in the file,
      the last no further than `limit`. */
  ghost predicate OffsetsIncrease(b: seq<CharWSourcePosition>, limit: int)
    decreases |b|
  {
    || b == []
    || (&& b[|b| - 1].sp.offsetInFile <= limit
        && OffsetsIncrease(b[..|b| - 1], b[|b| - 1].sp.offsetInFile - 1))
  }

  lemma OffsetsIncreaseRaise(b: seq<CharWSourcePosition>, limit: int, limit': int)
    requires OffsetsIncrease(b, limit) && limit <= limit'
    ensures OffsetsIncrease(b, limit')
  {
  }

  /** A character read after the others, at a further offset, keeps the order. */
  lemma OffsetsIncreaseAppend(b: seq<CharWSourcePosition>, limit: int, x: CharWSourcePosition)
    requires OffsetsIncrease(b, limit) && limit < x.sp.offsetInFile
    ensures OffsetsIncrease(b + [x], x.sp.offsetInFile)
  {
    assert (b + [x])[..|b|] == b;
    OffsetsIncreaseRaise(b, limit, x.sp.offsetInFile - 1);
  }

  /** Dropping the oldest character keeps the order, and the next one is
      further on. */
  lemma {:induction false} OffsetsIncreaseDrop(b: seq<CharWSourcePosition>, limit: int)
    requires OffsetsIncrease(b, limit) && b != []
    ensures OffsetsIncrease(b[1..], limit) && b[0].sp.offsetInFile <= limit
    ensures |b| > 1 ==> b[0].sp.offsetInFile < b[1].sp.offsetInFile
    decreases |b|
  {
    if |b| > 1 {
      var init := b[..|b| - 1];
      OffsetsIncreaseDrop(init, b[|b| - 1].sp.offsetInFile - 1);
      assert b[1..][..|b| - 2] == init[1..];
    }
  }

  class CharReader {
    /** the bytes of the underlying stream */
    const input: seq<char>
    /** how many bytes the stream has handed out */
    var pos: nat
    /** characters read ahead and not yet consumed, oldest first */
    var buffer: seq<CharWSourcePosition>
    /** stream source position */
    var offsetInFile: nat
    var newlinesCount: nat
    var offsetInLine: nat

    /** the characters still to be consumed */
    ghost var rest: seq<char>
    /** what `get_source_position` answers */
    ghost var here: SourcePosition

    /** `rest` is the buffer followed by the rest of the stream after newline
        normalisation, and `here` is the position of the oldest buffered
        character, or the stream's own position when nothing is buffered. The
        equations are stated for the stream tail `input[n..]` with `n == pos`,
        so that they come into play where a proof names `Normalize(input[pos..])`
        (the reader's own methods) and stay out of the way of clients, which
        reason about `rest` and `here` alone. The buffered characters carry
        increasing offsets in the file, none beyond the stream's own. */
    ghost predicate Valid()
      reads this
    {
      && pos <= |input| && |buffer| <= |rest|
      && OffsetsIncrease(buffer, offsetInFile)
      && (forall n: nat {:trigger Normalize(input[n..])} :: n == pos ==>
            && rest == Chars(buffer) + Normalize(input[n..])
            && here == BufferedPosition())
    }

    ghost function BufferedPosition(): SourcePosition
      reads this
    {
      if buffer != [] then buffer[0].sp
      else SourcePosition(offsetInFile, newlinesCount, offsetInLine)
    }

    /** The characters still to be consumed. */
    ghost function Remaining(): seq<char>
      reads this
    {
      rest
    }

    constructor (input: seq<char>)
      ensures Valid()
      ensures this.input == input && pos == 0 && buffer == []
      ensures offsetInFile == 0 && newlinesCount == 0 && offsetInLine == 0
      ensures Remaining() == Normalize(input) && here == SourcePosition(0, 0, 0)
    {
      this.input := input;
      pos := 0;
      buffer := [];
      offsetInFile, newlinesCount, offsetInLine := 0, 0, 0;
      rest := Normalize(input);
      here := SourcePosition(0, 0, 0);
      new;
      assert input[0..] == input;
      assert rest == Chars(buffer) + Normalize(input[pos..]);
    }

    /** `read_next_byte`: one byte from the stream, or `None` at its end; both
        offsets advance either way, because `eof_reached` is never set. */
    method ReadNextByte() returns (b: Option<char>)
      requires pos <= |input|
      modifies this
      ensures buffer == old(buffer) && rest == old(rest) && newlinesCount == old(newlinesCount)
      ensures offsetInFile == old(offsetInFile) + 1 && offsetInLine == old(offsetInLine) + 1
      ensures old(pos) < |input| ==> b == Some(input[old(pos)]) && pos == old(pos) + 1
      ensures old(pos) == |input| ==> b == None && pos == old(pos)
    {
      if pos < |input| {
        b := Some(input[pos]);
        pos := pos + 1;
      } else {
        b := None;
      }
      offsetInFile := offsetInFile + 1;
      offsetInLine := offsetInLine + 1;
    }

    /** `std::istream::peek`: the next byte without taking it. */
    function StreamPeek(): (b: Option<char>)
      reads this
      ensures b.Some? <==> pos < |input|
      ensures pos < |input| ==> b.value == input[pos]
    {
      if pos < |input| then Some(input[pos]) else None
    }

    /** `read_next`: the next normalised character with its position. */
    method ReadNext() returns (r: Option<CharWSourcePosition>)
      requires pos <= |input|
      modifies this
      ensures pos <= |input| && buffer == old(buffer) && rest == old(rest)
      ensures r.None? <==> old(pos) == |input|
      ensures r.None? ==>
        && pos == old(pos) && newlinesCount == old(newlinesCount)
        && offsetInFile == old(offsetInFile) + 1 && offsetInLine == old(offsetInLine) + 1
      ensures r.Some? ==>
        && pos == old(pos) + (if IsCrLf(input, old(pos)) then 2 else 1)
        && Normalize(input[old(pos)..]) == [r.value.c] + Normalize(input[pos..])
        && offsetInFile == old(offsetInFile) + (pos - old(pos))
        && (r.value.c == '\n' ==> newlinesCount == old(newlinesCount) + 1 && offsetInLine == 0)
        && (r.value.c != '\n' ==> newlinesCount == old(newlinesCount) && offsetInLine == old(offsetInLine) + 1)
        && r.value.sp == SourcePosition(offsetInFile, newlinesCount, offsetInLine)
    {
      ghost var p := pos;
      var b := ReadNextByte();
      if b.None? {
        return None;
      }
      var c := b.value;
      if c == '\r' {
        if StreamPeek() == Some('\n') {
          var _ := ReadNextByte();
          assert input[p..][2..] == input[pos..];
        } else {
          assert input[p..][1..] == input[pos..];
        }
        c := '\n';
      } else {
        assert input[p..][1..] == input[pos..];
      }
      if c == '\n' {
        newlinesCount := newlinesCount + 1;
        offsetInLine := 0;
      }
      r := Some(CharWSourcePosition(c, SourcePosition(offsetInFile, newlinesCount, offsetInLine)));
    }

    /** `peek(offset)`: reads ahead until `offset + 1` characters are buffered (or
        the stream ends) and answers the `offset`-th remaining character, or a
        space when there is none. Nothing is removed. */
    method Peek(offset: nat) returns (c: char)
      requires Valid()
      modifies this
      ensures Valid() && Remaining() == old(Remaining())
      ensures here.offsetInFile >= old(here.offsetInFile)
      ensures c == PeekAt(Remaining(), offset)
      ensures |buffer| >= Min(offset + 1, |Remaining()|)
    {
      while |buffer| <= offset
        invariant Valid() && Remaining() == old(Remaining())
        invariant here.offsetInFile >= old(here.offsetInFile)
        decreases |input| - pos
      {
        var more := ReadAhead();
        if !more {
          return ' '; // as in the source: a space instead of an optional
        }
      }
      assert rest == Chars(buffer) + Normalize(input[pos..]);
      c := buffer[offset].c;
    }

    /** One turn of the loop of `peek`: buffers the next character of the
        stream, or answers false when the stream has ended, and then everything
        that remains is buffered. */
    method ReadAhead() returns (more: bool)
      requires Valid()
      modifies this
      ensures Valid() && Remaining() == old(Remaining())
      ensures here.offsetInFile >= old(here.offsetInFile)
      ensures more ==> pos > old(pos) && |buffer| == old(|buffer|) + 1
      ensures !more ==> buffer == old(buffer) && |buffer| == |Remaining()|
    {
      ghost var p, limit, b0 := pos, offsetInFile, buffer;
      assert rest == Chars(buffer) + Normalize(input[p..]) && here == BufferedPosition();
      var next := ReadNext();
      if next.None? {
        OffsetsIncreaseRaise(buffer, limit, offsetInFile);
        here := BufferedPosition();
        assert pos == |input| && Normalize(input[pos..]) == [];
        return false;
      }
      assert Chars(buffer + [next.value]) == Chars(buffer) + [next.value.c];
      OffsetsIncreaseAppend(buffer, limit, next.value);
      buffer := buffer + [next.value];
      here := BufferedPosition();
      assert here == if b0 != [] then b0[0].sp else next.value.sp;
      assert rest == Chars(buffer) + Normalize(input[pos..]);
      return true;
    }

    /** `consume_from_buffer`: drops the oldest buffered character, if any. */
    method ConsumeFromBuffer()
      requires Valid()
      modifies this
      ensures Valid()
      ensures pos == old(pos) && offsetInFile == old(offsetInFile)
      ensures here.offsetInFile >= old(here.offsetInFile)
      ensures old(buffer) != [] ==> buffer == old(buffer)[1..] && Remaining() == old(Remaining())[1..]
      ensures old(buffer) == [] ==> buffer == old(buffer) && Remaining() == old(Remaining())
    {
      if buffer != [] {
        assert rest == Chars(buffer) + Normalize(input[pos..]);
        assert Chars(buffer[1..]) == Chars(buffer)[1..];
        OffsetsIncreaseDrop(buffer, offsetInFile);
        buffer := buffer[1..];
        rest := rest[1..];
        here := BufferedPosition();
        assert rest == Chars(buffer) + Normalize(input[pos..]);
      }
    }

    /** `consume(offset)`: answers what `peek(offset)` answers, then removes
        `offset + 1` characters, or all of them when fewer remain. The source's
        `uint` loop counter never exceeds `offset` when `offset` is 2^32 - 1, so
        that value is excluded. */
    method Consume(offset: nat) returns (c: char)
      requires Valid() && offset < Uint32Modulus - 1
      modifies this
      ensures Valid() && here.offsetInFile >= old(here.offsetInFile)
      ensures c == PeekAt(old(Remaining()), offset)
      ensures offset < |old(Remaining())| ==> Remaining() == old(Remaining())[offset + 1..]
      ensures |old(Remaining())| <= offset ==> Remaining() == []
    {
      c := Peek(offset);
      ghost var r := Remaining();
      ghost var n := |buffer|;
      var i := 0;
      while i <= offset
        invariant 0 <= i <= offset + 1
        invariant Valid() && here.offsetInFile >= old(here.offsetInFile)
        invariant n <= |r| && |buffer| == n - Min(i, n)
        invariant Remaining() == r[Min(i, n)..]
      {
        ConsumeFromBuffer();
        i := i + 1;
      }
    }

    /** `end_of_file_reached`: no character remains, in the buffer or the stream. */
    method EndOfFileReached() returns (eof: bool)
      requires Valid()
      modifies this
      ensures Valid() && Remaining() == old(Remaining())
      ensures here.offsetInFile >= old(here.offsetInFile)
      ensures eof <==> Remaining() == []
    {
      var _ := Peek(0);
      eof := buffer == [];
    }

    /** `get_source_position`: the position of the oldest buffered character, or
        the stream's own position when nothing is buffered. */
    method GetSourcePosition() returns (sp: SourcePosition)
      requires Valid()
      ensures sp == here
    {
      assert here == BufferedPosition() by {
        assert rest == Chars(buffer) + Normalize(input[pos..]);
      }
      if buffer != [] {
        sp := buffer[0].sp;
      } else {
        sp := SourcePosition(offsetInFile, newlinesCount, offsetInLine);
      }
    }

    /** `consume_if_matches(m)`: consumes one character exactly when the next one
        is `m` (at the end the "next" character is a space). */
    method ConsumeIfMatches(m: char) returns (matched: bool)
      requires Valid()
      modifies this
      ensures Valid() && here.offsetInFile >= old(here.offsetInFile)
      ensures matched == (PeekAt(old(Remaining()), 0) == m)
      ensures Remaining() == if matched then old(Remaining())[Min(1, |old(Remaining())|)..] else old(Remaining())
    {
      var c := Peek(0);
      if c == m {
        var _ := Consume(0);
        return true;
      }
      return false;
    }

    /** `consume_all_if_next(s)`: consumes |s| characters exactly when the next
        |s| peeked characters spell `s`, and nothing otherwise. The source casts
        `s.size()` to `int` and passes `size - 1` as an unsigned offset, so `s`
        must be non-empty and shorter than 2^31. */
    method ConsumeAllIfNext(s: string) returns (matched: bool)
      requires Valid() && 0 < |s| < 0x8000_0000
      modifies this
      ensures Valid() && here.offsetInFile >= old(here.offsetInFile)
      ensures matched == (forall j :: 0 <= j < |s| ==> PeekAt(old(Remaining()), j) == s[j])
      ensures Remaining() == if matched then old(Remaining())[Min(|s|, |old(Remaining())|)..] else old(Remaining())
    {
      var _ := Peek(|s| - 1);
      var i := 0;
      while i < |s|
        invariant 0 <= i <= |s|
        invariant Valid() && Remaining() == old(Remaining())
        invariant here.offsetInFile >= old(here.offsetInFile)
        invariant forall j :: 0 <= j < i ==> PeekAt(Remaining(), j) == s[j]
      {
        var c := Peek(i);
        if c != s[i] {
          return false;
        }
        i := i + 1;
      }
      var _ := Consume(|s| - 1);
      return true;
    }
  }
}
