/** The writer that keeps one window of a longer text (vita-gdb/src/kernel/utils.rs:59-107). A `char` stands
    for one byte of UTF-8 text. */
module StreamWriter {
  /** What a buffer of `room` bytes shows of a text from `offset` on. */
  function Window(text: string, offset: nat, room: nat): string {
    if |text| <= offset then ""
    else if |text| <= offset + room then text[offset..]
    else text[offset..offset + room]
  }

  /** One more byte shows only when the window has begun and has room. */
  lemma WindowGrows(text: string, c: char, offset: nat, room: nat)
    ensures Window(text + [c], offset, room)
            == Window(text, offset, room) + if offset <= |text| < offset + room then [c] else []
  {
  }

  lemma WindowIsFull(text: string, more: string, offset: nat, room: nat)
    requires offset + room <= |text|
    ensures Window(text + more, offset, room) == Window(text, offset, room)
  {
  }

  function Join(pieces: seq<string>): string {
    if pieces == [] then "" else pieces[0] + Join(pieces[1..])
  }

  lemma MoveOn(text: string, s: string, i: nat)
    requires i < |s|
    ensures text + s[i..] == text + [s[i]] + s[i + 1..]
  {
  }

  lemma JoinFrom(pieces: seq<string>, i: nat)
    requires i < |pieces|
    ensures Join(pieces[i..]) == pieces[i] + Join(pieces[i + 1..])
  {
    assert pieces[i..][1..] == pieces[i + 1..];
  }

  datatype CStr = Terminated(text: string) | InvalidNul | BufferTooSmall

  class StreamWriter {
    const buf: array<char>
    var skip: nat
    var written: nat

    // everything ever handed to write_str, and the first byte of it that is wanted
    ghost var text: string
    ghost const offset: nat

    ghost predicate Valid()
      reads this, buf
    {
      && written <= buf.Length
      && skip == (if offset > |text| then offset - |text| else 0)
      && buf[..written] == Window(text, offset, buf.Length)
    }

    constructor (buf: array<char>, skip: nat)
      ensures Valid() && this.buf == buf && offset == skip && text == "" && written == 0
      ensures buf[..] == old(buf[..])
    {
      this.buf, this.skip, this.written := buf, skip, 0;
      text, offset := "", skip;
    }

    /** The next byte goes into the next free place of the buffer. */
    method Put(c: char)
      requires Valid() && skip == 0 && written < buf.Length
      modifies this`written, this`text, buf
      ensures Valid() && text == old(text) + [c] && written == old(written) + 1
      ensures forall k :: written <= k < buf.Length ==> buf[k] == old(buf[k])
    {
      WindowGrows(text, c, offset, buf.Length);
      buf[written] := c;
      written := written + 1;
      text := text + [c];
      assert buf[..written] == old(buf[..written]) + [c];
    }

    /** A byte before the window only counts down. */
    method Skip(c: char)
      requires Valid() && skip > 0
      modifies this`skip, this`text
      ensures Valid() && text == old(text) + [c] && |text| <= offset
    {
      WindowGrows(text, c, offset, buf.Length);
      skip := skip - 1;
      text := text + [c];
    }

    /** Text is added whether or not all of it fits; an error says that the window ends before the text does. */
    method WriteStr(s: string) returns (ok: bool)
      requires Valid()
      modifies this`skip, this`written, this`text, buf
      ensures Valid() && text == old(text) + s
      ensures ok <==> s == "" || |text| <= offset + buf.Length
      ensures written >= old(written) && forall k :: written <= k < buf.Length ==> buf[k] == old(buf[k])
    {
      ghost var before := text;
      for i := 0 to |s|
        invariant Valid() && text + s[i..] == before + s
        invariant i > 0 ==> |text| <= offset + buf.Length
        invariant old(written) <= written && forall k :: written <= k < buf.Length ==> buf[k] == old(buf[k])
      {
        MoveOn(text, s, i);
        if skip > 0 {
          Skip(s[i]);
        } else if written < buf.Length {
          Put(s[i]);
        } else {
          WindowIsFull(text, s[i..], offset, buf.Length);
          text := before + s;
          return false;
        }
      }
      return true;
    }

    /** write!: the pieces one by one, up to the first error. The window is that of all of them. */
    method WriteFmt(pieces: seq<string>) returns (ok: bool)
      requires Valid()
      modifies this`skip, this`written, this`text, buf
      ensures Valid() && text == old(text) + Join(pieces)
      ensures ok <==> Join(pieces) == "" || |text| <= offset + buf.Length
      ensures written >= old(written) && forall k :: written <= k < buf.Length ==> buf[k] == old(buf[k])
    {
      ghost var before := text;
      for i := 0 to |pieces|
        invariant Valid() && text + Join(pieces[i..]) == before + Join(pieces)
        invariant |text| == |before| || |before| < |text| <= offset + buf.Length
        invariant old(written) <= written && forall k :: written <= k < buf.Length ==> buf[k] == old(buf[k])
      {
        JoinFrom(pieces, i);
        ok := WriteStr(pieces[i]);
        if !ok {
          WindowIsFull(text, Join(pieces[i + 1..]), offset, buf.Length);
          text := before + Join(pieces);
          return;
        }
      }
      return true;
    }

    /** Accepts exactly when the rest of the text and a terminator fit and no byte of it is NUL, and then
        gives all of it: truncated text is never accepted. */
    method IntoCStr() returns (r: CStr)
      requires Valid()
      modifies buf
      ensures r.BufferTooSmall? <==> buf.Length == 0 || offset + buf.Length <= |text|
      ensures r.Terminated? ==> r.text == (if offset <= |text| then text[offset..] else "") && '\0' !in r.text
      ensures r.InvalidNul? ==> offset < |text| && '\0' in text[offset..]
      ensures !r.BufferTooSmall? ==> buf[..] == old(buf[..])[written := '\0']
      ensures r.BufferTooSmall? ==> buf[..] == old(buf[..])
    {
      if written < buf.Length {
        buf[written] := '\0';
        return if '\0' in buf[..written] then InvalidNul else Terminated(buf[..written]);
      }
      return BufferTooSmall;
    }
  }
}
