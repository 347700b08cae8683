/** The input stream and the lexing helpers that read it. The stream is the
    whole input text and the position fgetc has reached in it. */
module Cursor {
  import opened Chars
  import opened Errors
  import opened Syntax
  import Grammar

  /** The outcome r of a cursor operation matches the grammar function's
      outcome spec, and pos is the position the stream then stands at. */
  predicate Agrees<T(==)>(r: Result<T>, spec: Result<(T, nat)>, pos: nat) {
    match spec
    case Ok(p) => r == Ok(p.0) && pos == p.1
    case Err(e) => r == Err(e)
  }

  /** One more identifier character read by shiftname: the slice read so far
      grows by it, and the end of the run is still ahead. */
  lemma NameStep(s: seq<char>, a: nat, b: nat)
    requires a <= b < |s| && IsNameChar(s[b])
    ensures Grammar.Substr(s, a, b + 1) == Grammar.Substr(s, a, b) + [s[b]]
    ensures Grammar.NameEnd(s, b) == Grammar.NameEnd(s, b + 1)
  {
  }

  class Input {
    /** Everything the input file holds. */
    const text: seq<char>
    /** How many characters have been read. */
    var pos: nat

    ghost predicate Valid()
      reads this
    {
      pos <= |text|
    }

    /** The stream opened at the first character of s. */
    constructor (s: seq<char>)
      ensures Valid() && text == s && pos == 0
    {
      text := s;
      pos := 0;
    }

    /** shift: the next character, consumed; at the end of input Eof, and the
        stream stays where it is. */
    method Shift() returns (c: Ch)
      requires Valid()
      modifies this
      ensures Valid()
      ensures c == At(text, old(pos))
      ensures pos == if c.Eof? then old(pos) else old(pos) + 1
    {
      if pos < |text| {
        c := Char(text[pos]);
        pos := pos + 1;
      } else {
        c := Eof;
      }
    }

    /** unshift: puts back the character c that was just read; Eof puts back
        nothing. */
    method Unshift(c: Ch)
      requires Valid()
      requires c.Char? ==> 0 < pos && text[pos - 1] == c.c
      modifies this
      ensures Valid()
      ensures pos == if c.Eof? then old(pos) else old(pos) - 1
    {
      if c.Char? {
        pos := pos - 1;
      }
    }

    /** peek: the next character, read and put back. */
    method Peek() returns (c: Ch)
      requires Valid()
      modifies this
      ensures Valid()
      ensures c == At(text, pos) && pos == old(pos)
    {
      c := Shift();
      Unshift(c);
    }

    /** trim: skips the whitespace at the stream's position, and nothing else. */
    method Trim()
      requires Valid()
      modifies this
      ensures Valid()
      ensures pos == Grammar.Trim(text, old(pos))
    {
      while true
        invariant Valid() && Grammar.Trim(text, pos) == Grammar.Trim(text, old(pos))
        decreases |text| - pos
      {
        var c := Peek();
        if c == Eof {
          break;
        }
        if !IsSpace(c.c) {
          break;
        }
        c := Shift();
      }
    }

    /** shiftname: reads an identifier into a buffer of BUFSIZE characters and
        returns it. The first character must be a letter or `_`; the rest is
        the maximal run of letters, digits and `_`, and the buffer keeps one
        place for the terminating NUL. */
    method ShiftName() returns (r: Result<string>)
      requires Valid()
      modifies this
      ensures Valid()
      ensures Agrees(r, Grammar.LexName(text, old(pos)), pos)
    {
      ghost var p0 := pos;
      var buf := new char[BUFSIZE];
      var c := Shift();
      if !(c.Char? && IsNameStart(c.c)) {
        return Err(ExpectedIdentifier(c));
      }
      buf[0] := c.c;
      assert buf[..1] == [c.c] == Grammar.Substr(text, p0, pos);
      var n := ShiftNameChars(buf, p0);
      Grammar.LexNameFrom(text, p0, Grammar.NameEnd(text, p0 + 1));
      if n.Err? {
        return Err(n.err);
      }
      var i := n.value;
      r := Ok(buf[..i]);
      buf[i] := '\0';
    }

    /** The loop of shiftname: with the first i characters of an identifier
        starting at p0 in buf, reads the rest of it into buf, and fails when
        the buffer, less the place for NUL, is full while the identifier goes
        on. On success, the length of the identifier. */
    method ShiftNameChars(buf: array<char>, ghost p0: nat) returns (r: Result<nat>)
      requires Valid() && buf.Length == BUFSIZE && pos == p0 + 1
      requires buf[..1] == Grammar.Substr(text, p0, pos)
      modifies this, buf
      ensures Valid()
      ensures r.Ok? ==> && r.value < BUFSIZE && pos == p0 + r.value
                        && pos == Grammar.NameEnd(text, p0 + 1)
                        && buf[..r.value] == Grammar.Substr(text, p0, pos)
      ensures r.Err? ==> r == Err(IdentifierTooLong) && Grammar.NameEnd(text, p0 + 1) - p0 > MaxNameLen
    {
      var i := 1;
      while true
        invariant Valid() && 1 <= i < BUFSIZE && pos == p0 + i
        invariant buf[..i] == Grammar.Substr(text, p0, pos)
        invariant Grammar.NameEnd(text, p0 + 1) == Grammar.NameEnd(text, pos)
        decreases |text| - pos
      {
        var c := Peek();
        if !(c.Char? && IsNameChar(c.c)) {
          break;
        }
        if i == BUFSIZE - 1 {
          return Err(IdentifierTooLong);
        }
        NameStep(text, p0, pos);
        buf[i] := c.c;
        assert buf[..i + 1] == buf[..i] + [c.c];
        i := i + 1;
        ghost var p := pos;
        c := Shift();
        assert pos == p + 1;
      }
      r := Ok(i);
    }

    /** expectc: consumes one character, which must be e. */
    method ExpectC(e: char) returns (r: Result<()>)
      requires Valid()
      modifies this
      ensures Valid()
      ensures r.Ok? <==> Grammar.ExpectChar(text, old(pos), e).Ok?
      ensures r.Ok? ==> pos == Grammar.ExpectChar(text, old(pos), e).value
      ensures r.Err? ==> r.err == Grammar.ExpectChar(text, old(pos), e).err
    {
      var c := Shift();
      if c == Eof {
        return Err(ExpectedChar(e, Eof));
      }
      if c.c != e {
        return Err(ExpectedChar(e, c));
      }
      r := Ok(());
    }
  }
}
