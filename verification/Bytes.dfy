/** Bytes, byte strings and the ASCII trimming that `strTrimmed` and QByteArray::trimmed share. */
module Bytes {

  type Byte = b: int | 0 <= b < 0x100

  type Text = seq<Byte>

  /** Space, tab, line feed, vertical tab, form feed and carriage return. */
  predicate IsSpace(b: Byte) {
    b == 0x20 || 0x09 <= b <= 0x0D
  }

  /** The six characters of the program's list. */
  lemma {:induction false} SpacesAre(b: Byte)
    ensures IsSpace(b) <==> b in Ascii(" \t\n\U{0B}\U{0C}\r")
  {
    var t := Ascii(" \t\n\U{0B}\U{0C}\r");
    assert t == [0x20, 0x09, 0x0A, 0x0B, 0x0C, 0x0D];
  }

  ghost predicate AllSpace(t: Text) {
    forall i :: 0 <= i < |t| ==> IsSpace(t[i])
  }

  predicate IsTrimmed(t: Text) {
    t == [] || (!IsSpace(t[0]) && !IsSpace(t[|t| - 1]))
  }

  function TrimLeft(t: Text): Text {
    if t != [] && IsSpace(t[0]) then TrimLeft(t[1..]) else t
  }

  function TrimRight(t: Text): Text {
    if t != [] && IsSpace(t[|t| - 1]) then TrimRight(t[..|t| - 1]) else t
  }

  function Trimmed(t: Text): Text {
    TrimRight(TrimLeft(t))
  }

  lemma {:induction false} TrimLeftSkips(pre: Text, t: Text)
    requires AllSpace(pre)
    ensures TrimLeft(pre + t) == TrimLeft(t)
  {
    if pre == [] {
      assert pre + t == t;
    } else {
      assert (pre + t)[1..] == pre[1..] + t;
      TrimLeftSkips(pre[1..], t);
    }
  }

  lemma {:induction false} TrimRightSkips(t: Text, post: Text)
    requires AllSpace(post)
    ensures TrimRight(t + post) == TrimRight(t)
  {
    if post == [] {
      assert t + post == t;
    } else {
      assert (t + post)[..|t + post| - 1] == t + post[..|post| - 1];
      TrimRightSkips(t, post[..|post| - 1]);
    }
  }

  /** Trimming finds the core of a text, whatever whitespace is around it. */
  lemma {:induction false} TrimmedIs(pre: Text, core: Text, post: Text)
    requires AllSpace(pre) && IsTrimmed(core) && AllSpace(post)
    ensures Trimmed(pre + core + post) == core
  {
    assert pre + core + post == pre + (core + post);
    TrimLeftSkips(pre, core + post);
    if core == [] {
      assert core + post == post + [];
      TrimLeftSkips(post, []);
    } else {
      TrimRightSkips(core, post);
    }
  }

  lemma {:induction false} TrimLeftSplit(t: Text) returns (pre: Text)
    ensures t == pre + TrimLeft(t) && AllSpace(pre)
    ensures TrimLeft(t) == [] || !IsSpace(TrimLeft(t)[0])
  {
    if t != [] && IsSpace(t[0]) {
      pre := TrimLeftSplit(t[1..]);
      pre := [t[0]] + pre;
    } else {
      pre := [];
    }
  }

  lemma {:induction false} TrimRightSplit(t: Text) returns (post: Text)
    ensures t == TrimRight(t) + post && AllSpace(post)
    ensures TrimRight(t) == [] || !IsSpace(TrimRight(t)[|TrimRight(t)| - 1])
  {
    if t != [] && IsSpace(t[|t| - 1]) {
      post := TrimRightSplit(t[..|t| - 1]);
      post := post + [t[|t| - 1]];
    } else {
      post := [];
    }
  }

  /** Every text is its trimmed core with whitespace around it; nothing else is taken away. */
  lemma {:induction false} TrimmedSplit(t: Text) returns (pre: Text, post: Text)
    ensures t == pre + Trimmed(t) + post
    ensures AllSpace(pre) && IsTrimmed(Trimmed(t)) && AllSpace(post)
  {
    pre := TrimLeftSplit(t);
    post := TrimRightSplit(TrimLeft(t));
    if Trimmed(t) != [] {
      assert TrimLeft(t)[0] == Trimmed(t)[0];
    }
  }

  lemma {:induction false} TrimmedFixpoint(t: Text)
    ensures IsTrimmed(Trimmed(t))
    ensures IsTrimmed(t) <==> Trimmed(t) == t
  {
    var pre, post := TrimmedSplit(t);
    if IsTrimmed(t) {
      TrimmedIs([], t, []);
      assert [] + t + [] == t;
    }
  }

  /** Trimming keeps only bytes that were there. */
  lemma {:induction false} TrimmedBytes(t: Text, b: Byte)
    ensures b in Trimmed(t) ==> b in t
  {
    var pre, post := TrimmedSplit(t);
  }

  /** The bytes of a literal of the program, which are all ASCII and never null. */
  function Ascii(s: string): (t: Text)
    ensures |t| == |s| && 0 !in t
    ensures forall i :: 0 <= i < |s| && 0 < s[i] as int < 0x80 ==> t[i] == s[i] as int
  {
    seq(|s|, i requires 0 <= i < |s| => if 0 < s[i] as int < 0x80 then s[i] as int else 0x3F)
  }

  function Joined(texts: seq<Text>): Text {
    if texts == [] then [] else texts[0] + Joined(texts[1..])
  }

  lemma {:induction false} JoinedConcat(a: seq<Text>, b: seq<Text>)
    ensures Joined(a + b) == Joined(a) + Joined(b)
  {
    if a == [] {
      assert a + b == b;
    } else {
      assert (a + b)[1..] == a[1..] + b;
      JoinedConcat(a[1..], b);
    }
  }

  /** The little-endian number in a run of bytes. */
  function LittleEndian(bytes: Text): nat {
    if bytes == [] then 0 else LittleEndian(bytes[1..]) * 256 + bytes[0]
  }

  /** The lowest byte comes first. */
  lemma {:induction false} LittleEndianIs(bytes: Text)
    ensures |bytes| == 1 ==> LittleEndian(bytes) == bytes[0]
    ensures |bytes| == 2 ==> LittleEndian(bytes) == bytes[0] as int + 0x100 * bytes[1] as int
    ensures |bytes| == 4 ==>
      LittleEndian(bytes)
        == bytes[0] as int + 0x100 * bytes[1] as int + 0x1_0000 * bytes[2] as int + 0x100_0000 * bytes[3] as int
  {
    if bytes != [] {
      var one := bytes[1..];
      if one != [] {
        var two := one[1..];
        assert |two| == 2 ==> LittleEndian(two) == LittleEndian(two[1..]) * 256 + two[0];
        assert |two| == 2 ==> LittleEndian(two[1..]) == LittleEndian(two[1..][1..]) * 256 + two[1];
      }
    }
  }
}
