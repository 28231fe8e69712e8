/** The strings behind a table (source/base/smbios_parser.cc, `smbiosString`). */
module SmbiosStrings {
  import opened Bytes
  import opened SmbiosTables
  import opened StringUtil

  /** The first null from p on. */
  function NullFrom(t: Text, p: nat): (z: nat)
    requires IsTable(t) && p < |t|
    ensures p <= z < |t| && t[z] == 0
    decreases |t| - p
  {
    if t[p] == 0 then p else NullFrom(t, p + 1)
  }

  lemma {:induction false} NullFromIsFirst(t: Text, p: nat, i: nat)
    requires IsTable(t) && p < |t| && p <= i < NullFrom(t, p)
    ensures t[i] != 0
    decreases |t| - p
  {
    if p == i {
    } else {
      NullFromIsFirst(t, p + 1, i);
    }
  }

  /** The strings from p on: each up to its null, until an empty one. */
  function StringsFrom(t: Text, p: nat): seq<Text>
    requires IsTable(t) && p <= |t|
    decreases |t| - p
  {
    if p == |t| || t[p] == 0 then [] else [t[p..NullFrom(t, p)]] + StringsFrom(t, NullFrom(t, p) + 1)
  }

  function StringsOf(t: Text): seq<Text>
    requires IsTable(t)
  {
    StringsFrom(t, t[1])
  }

  /** The k-th of the strings, counted from one, or an empty one. */
  function Nth(strings: seq<Text>, k: nat): Text {
    if 1 <= k <= |strings| then strings[k - 1] else []
  }

  /** String number k of the table, counted from one, as the program hands it on; empty when there is none. */
  function StringOf(t: Text, number: nat): Text
    requires IsTable(t)
  {
    FromLatin1(Trimmed(Nth(StringsOf(t), number)))
  }

  /** Before the second null at the end, a string that is not empty leaves room for what follows it. */
  lemma {:induction false} NullLeavesRoom(t: Text, p: nat)
    requires IsTable(t) && p < |t| && t[p] != 0
    ensures NullFrom(t, p) + 1 < |t|
  {
    var z := NullFrom(t, p);
    if z == |t| - 1 && p <= |t| - 2 {
      NullFromIsFirst(t, p, |t| - 2);
    }
  }

  method StrLen(t: Text, p: nat) returns (n: nat)
    requires IsTable(t) && p < |t|
    ensures p + n == NullFrom(t, p)
  {
    n := 0;
    while t[p + n] != 0
      invariant p + n < |t| && NullFrom(t, p + n) == NullFrom(t, p)
      decreases |t| - n
    {
      n := n + 1;
    }
  }

  /**
    The walk of `smbiosString`.  The bytes it is given end with the second terminating null, so that
    every read being inside them says that it never goes past it, for any number.
   */
  method FindString(t: Text, number: nat) returns (at: nat)
    requires IsTable(t) && number >= 1
    ensures at < |t|
    ensures t[at..NullFrom(t, at)] == Nth(StringsOf(t), number)
  {
    at := t[1];
    var left := number;
    ghost var rest := StringsOf(t);
    while left > 1 && t[at] != 0
      invariant 1 <= left <= number && at < |t| && rest == StringsFrom(t, at)
      invariant Nth(rest, left) == Nth(StringsOf(t), number)
    {
      NullLeavesRoom(t, at);
      rest := StringsFrom(t, NullFrom(t, at) + 1);
      var n := StrLen(t, at);
      at := at + n + 1;
      left := left - 1;
    }
  }

  method SmbiosString(t: Text, number: Byte) returns (r: Text)
    requires IsTable(t)
    ensures r == StringOf(t, number)
  {
    if number == 0 {
      return [];
    }
    var at := FindString(t, number);
    var n := StrLen(t, at);
    var trimmed := StrTrimmed(t[at..at + n]);
    r := StrFromLatin1(trimmed);
  }

  // ---------------------------------------------------------------------------------------------
  // What was encoded is what is read
  // ---------------------------------------------------------------------------------------------

  lemma {:induction false} NullFromIs(t: Text, p: nat, z: nat)
    requires IsTable(t) && p <= z < |t| && t[z] == 0 && forall i :: p <= i < z ==> t[i] != 0
    ensures NullFrom(t, p) == z
    decreases z - p
  {
    if p == z {
    } else {
      NullFromIs(t, p + 1, z);
    }
  }

  lemma {:induction false} FirstString(t: Text, p: nat, s: Text)
    requires IsTable(t) && IsString(s) && p + |s| < |t| && t[p..p + |s|] == s && t[p + |s|] == 0
    ensures StringsFrom(t, p) == [s] + StringsFrom(t, p + |s| + 1)
  {
    forall i | p <= i < p + |s| ensures t[i] != 0 {
      assert t[i] == t[p..p + |s|][i - p];
    }
    NullFromIs(t, p, p + |s|);
  }

  lemma {:induction false} StringsOfTerminated(t: Text, p: nat, strings: seq<Text>)
    requires IsTable(t) && EndsStrings(t, p, strings)
    ensures p < |t| && StringsFrom(t, p) == strings
    decreases |strings|
  {
    AfterString(t, p, strings);
    if strings == [] {
    } else {
      var s, more := strings[0], strings[1..];
      FirstString(t, p, s);
      StringsOfTerminated(t, p + |s| + 1, more);
      assert [s] + more == strings;
    }
  }

  /** The strings of an encoded structure are the ones that were put in. */
  lemma {:induction false} StringsOfEncoded(s: Structure, e: Text)
    requires WellFormed(s) && e == Encode(s)
    ensures IsTable(e) && StringsOf(e) == s.strings
  {
    EncodedIsTable(s, e);
    EncodedParts(s, e);
    if s.strings == [] {
      assert e[e[1]] == e[e[1]..e[1] + 2][0];
    } else {
      TerminatedEnds(e, e[1], s.strings);
      StringsOfTerminated(e, e[1], s.strings);
    }
  }

  /** In every table, the strings are what the string area starts with, up to an empty one; nothing else is. */
  lemma {:induction false} StringsAreTheArea(t: Text, strings: seq<Text>)
    requires IsTable(t)
    ensures StringsOf(t) == strings <==> EndsStrings(t, t[1], strings)
  {
    StringsEnd(t, t[1]);
    if EndsStrings(t, t[1], strings) {
      StringsOfTerminated(t, t[1], strings);
    }
  }

  lemma {:induction false} StringsEnd(t: Text, p: nat)
    requires IsTable(t) && p < |t|
    ensures EndsStrings(t, p, StringsFrom(t, p))
    decreases |t| - p
  {
    if t[p] == 0 {
    } else {
      var z := NullFrom(t, p);
      NullLeavesRoom(t, p);
      StringsEnd(t, z + 1);
      UpToNull(t, p, z, t[p..z]);
      OneMoreString(t, p, z, t[p..z], StringsFrom(t, z + 1));
    }
  }

  lemma {:induction false} OneMoreString(t: Text, p: nat, z: nat, s: Text, strings: seq<Text>)
    requires IsString(s) && LiesAt(t, p, s) && z == p + |s| < |t| && t[z] == 0 && EndsStrings(t, z + 1, strings)
    ensures EndsStrings(t, p, [s] + strings)
  {
    assert ([s] + strings)[1..] == strings;
  }

  lemma {:induction false} UpToNull(t: Text, p: nat, z: nat, s: Text)
    requires IsTable(t) && p < |t| && t[p] != 0 && z == NullFrom(t, p) && s == t[p..z]
    ensures p < z && IsString(s) && LiesAt(t, p, s) && t[z] == 0
  {
    assert p < z;
    forall i | 0 <= i < |s| ensures s[i] != 0 {
      NullFromIsFirst(t, p, p + i);
    }
  }

  /** String number k of the i-th table that is visited in a dump is the k-th string of the i-th structure. */
  lemma {:induction false} StringsOfDump(head: Text, n: nat, data: Text, ss: seq<Structure>, rest: Text, i: nat, k: nat)
    requires Dumped(head, n, data, ss, rest) && i < |Tables(TableData(Dump(head, n, data)), 0)|
    ensures i < |ss| && Holds(Declared(n, data), Tables(TableData(Dump(head, n, data)), 0)[i], Encode(ss[i]))
    ensures IsTable(Encode(ss[i])) && StringOf(Encode(ss[i]), k) ==
      if 1 <= k <= |ss[i].strings| then FromLatin1(Trimmed(ss[i].strings[k - 1])) else []
  {
    VisitedIsEncoded(head, n, data, ss, rest, i);
    StringsOfEncoded(ss[i], Encode(ss[i]));
  }
}
