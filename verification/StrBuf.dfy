/** The growing string buffer of the JSON module, with its checked and unchecked appends; a char is a byte. */
module StrBuf {
  const STRBUF_DEFAULT_SIZE: nat := 1023

  class Buffer {
    var buf: array<char>
    var length: nat

    constructor (len: int)
      ensures Valid() && Text() == [] && fresh(buf) && Empty() == (if len <= 0 then STRBUF_DEFAULT_SIZE - 1 else len)
    {
      buf := new char[if len <= 0 then STRBUF_DEFAULT_SIZE else len + 1];
      length := 0;
    }

    /** There is always room for a closing NUL. */
    ghost predicate Valid()
      reads this
    {
      length < buf.Length
    }

    ghost function Text(): seq<char>
      requires Valid()
      reads this, buf
    {
      buf[..length]
    }

    /** How many bytes can be appended without growing. */
    function Empty(): int
      reads this
    {
      buf.Length - length - 1
    }

    method Reset()
      requires Valid()
      modifies this`length
      ensures Valid() && Text() == [] && Empty() == buf.Length - 1
    {
      length := 0;
    }

    /** Doubles the size until len bytes and a NUL fit. */
    method Resize(len: nat)
      requires Valid() && buf.Length < len + 1
      modifies this`buf
      ensures Valid() && Text() == old(Text()) && buf.Length >= len + 1 && fresh(buf)
    {
      var reqsize := len + 1;
      var newsize := buf.Length;
      while newsize < reqsize
        invariant newsize >= buf.Length > 0
        decreases reqsize - newsize
      {
        newsize := newsize * 2;
      }
      var a := new char[newsize];
      forall i | 0 <= i < length {
        a[i] := buf[i];
      }
      buf := a;
    }

    method EnsureEmptyLength(len: nat)
      requires Valid()
      modifies this`buf
      ensures Valid() && Text() == old(Text()) && Empty() >= len
      ensures buf == old(buf) || fresh(buf)
    {
      if len > Empty() {
        Resize(length + len);
      }
    }

    /** Appends without a check: the caller has made room. */
    method AppendCharUnsafe(c: char)
      requires Valid() && Empty() >= 1
      modifies this`length, buf
      ensures Valid() && Text() == old(Text()) + [c] && Empty() == old(Empty()) - 1
    {
      ghost var t := Text();
      buf[length] := c;
      length := length + 1;
      assert Text() == t + [c];
    }

    method AppendChar(c: char)
      requires Valid()
      modifies this, buf
      ensures Valid() && Text() == old(Text()) + [c] && (buf == old(buf) || fresh(buf))
    {
      EnsureEmptyLength(1);
      AppendCharUnsafe(c);
    }

    method AppendMemUnsafe(s: seq<char>)
      requires Valid() && Empty() >= |s|
      modifies this`length, buf
      ensures Valid() && Text() == old(Text()) + s && Empty() == old(Empty()) - |s|
    {
      ghost var t := Text();
      forall i | 0 <= i < |s| {
        buf[length + i] := s[i];
      }
      length := length + |s|;
      assert Text() == t + s;
    }

    method AppendMem(s: seq<char>)
      requires Valid()
      modifies this, buf
      ensures Valid() && Text() == old(Text()) + s && (buf == old(buf) || fresh(buf))
    {
      EnsureEmptyLength(|s|);
      AppendMemUnsafe(s);
    }

    /** strbuf_append_string: grows one byte at a time, and not at all while there is room. */
    method AppendString(s: seq<char>)
      requires Valid()
      modifies this, buf
      ensures Valid() && Text() == old(Text()) + s && (buf == old(buf) || fresh(buf))
      ensures old(Empty()) >= |s| ==> Empty() == old(Empty()) - |s|
    {
      var i := 0;
      ghost var t := Text();
      assert t + s[..0] == t;
      while i < |s|
        invariant 0 <= i <= |s| && Valid() && Text() == t + s[..i] && (buf == old(buf) || fresh(buf))
        invariant old(Empty()) >= |s| ==> Empty() == old(Empty()) - i
      {
        if Empty() < 1 {
          Resize(length + 1);
        }
        AppendCharUnsafe(s[i]);
        assert t + s[..i] + [s[i]] == t + s[..i + 1];
        i := i + 1;
      }
      assert s[..|s|] == s;
    }

    method EnsureNull()
      requires Valid()
      modifies buf
      ensures Valid() && Text() == old(Text()) && buf[length] == '\0'
    {
      buf[length] := '\0';
    }
  }
}
