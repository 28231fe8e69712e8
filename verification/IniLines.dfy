/**
  What a line of a settings file means, from its bytes alone, and that the parser of source/base/ini_file.cc
  classifies every line that way.
 */
module IniLines {
  import opened Bytes
  import opened IniFormat

  // ---------------------------------------------------------------------------------------------
  // The shapes
  // ---------------------------------------------------------------------------------------------

  /** Whitespace, then this byte. */
  ghost predicate BeginsWith(raw: Text, b: Byte) {
    exists pre, rest :: Begins(raw, pre, b, rest)
  }

  ghost predicate Begins(raw: Text, pre: Text, b: Byte, rest: Text) {
    AllSpace(pre) && raw == pre + [b] + rest
  }

  /** Nothing but whitespace, or a semicolon or hash sign behind whitespace and then anything. */
  ghost predicate IsIgnored(raw: Text) {
    AllSpace(raw) || BeginsWith(raw, 0x3B) || BeginsWith(raw, 0x23)
  }

  /** A name in brackets, with any whitespace around the brackets and around the name. */
  ghost predicate IsHeader(raw: Text, name: Text) {
    name != [] && IsTrimmed(name) && exists a, b, c, d :: Bracketed(raw, a, b, name, c, d)
  }

  ghost predicate Bracketed(raw: Text, a: Text, b: Text, name: Text, c: Text, d: Text) {
    AllSpace(a) && AllSpace(b) && AllSpace(c) && AllSpace(d) && raw == a + ([0x5B] + (b + name + c) + [0x5D]) + d
  }

  /** A key, an equals sign and a value, with any whitespace around each; the first equals sign is the one. */
  ghost predicate IsPair(raw: Text, key: Text, value: Text) {
    && key != [] && IsTrimmed(key) && 0x3D !in key && key[0] != 0x5B && key[0] != 0x3B && key[0] != 0x23
    && IsTrimmed(value) && exists a, b, c, d :: Assigned(raw, a, key, b, c, value, d)
  }

  ghost predicate Assigned(raw: Text, a: Text, key: Text, b: Text, c: Text, value: Text, d: Text) {
    AllSpace(a) && AllSpace(b) && AllSpace(c) && AllSpace(d) && raw == a + (key + b + [0x3D] + (c + value)) + d
  }

  /** The one meaning of a line. */
  ghost predicate Means(raw: Text, line: Line) {
    match line
    case Ignored => IsIgnored(raw)
    case Header(name) => IsHeader(raw, name)
    case Pair(key, value) => IsPair(raw, key, value)
    case BadHeader => BeginsWith(raw, 0x5B) && forall name :: !IsHeader(raw, name)
    case BadPair => !IsIgnored(raw) && !BeginsWith(raw, 0x5B) && forall key, value :: !IsPair(raw, key, value)
  }

  // ---------------------------------------------------------------------------------------------
  // From the shape to the classification
  // ---------------------------------------------------------------------------------------------

  /** Trimming keeps the first byte that is not whitespace in front. */
  lemma {:induction false} TrimmedBegins(raw: Text, pre: Text, b: Byte, rest: Text)
    requires Begins(raw, pre, b, rest) && !IsSpace(b)
    ensures Trimmed(raw) != [] && Trimmed(raw)[0] == b
  {
    var core := [b] + rest;
    assert raw == pre + core;
    TrimLeftSkips(pre, core);
    assert TrimLeft(core) == core;
    var post := TrimRightSplit(core);
    assert core[0] == (TrimRight(core) + post)[0];
  }

  lemma {:induction false} IgnoredIs(raw: Text)
    requires IsIgnored(raw)
    ensures Classify(raw) == Ignored
  {
    if AllSpace(raw) {
      TrimmedIs(raw, [], []);
      assert raw + [] + [] == raw;
    } else if BeginsWith(raw, 0x3B) {
      var pre, rest :| Begins(raw, pre, 0x3B, rest);
      TrimmedBegins(raw, pre, 0x3B, rest);
    } else {
      var pre, rest :| Begins(raw, pre, 0x23, rest);
      TrimmedBegins(raw, pre, 0x23, rest);
    }
  }

  lemma {:induction false} HeaderIs(raw: Text, name: Text)
    requires IsHeader(raw, name)
    ensures Classify(raw) == Header(name)
  {
    var a, b, c, d :| Bracketed(raw, a, b, name, c, d);
    var mid := b + name + c;
    var line := [0x5B] + mid + [0x5D];
    TrimmedIs(a, line, d);
    assert line[1..|line| - 1] == mid;
    TrimmedIs(b, name, c);
  }

  /** The first equals sign stands behind the key and its whitespace. */
  lemma {:induction false} FirstAssign(left: Text, right: Text)
    requires ASSIGN !in left
    ensures IndexOf(left + [ASSIGN] + right, ASSIGN) == |left|
  {
    var line := left + [ASSIGN] + right;
    assert line[..|left|] == left;
    IndexOfFirst(line, ASSIGN, |left|);
  }

  /** A line that is trimmed already. */
  lemma {:induction false} PairIsLine(line: Text, left: Text, right: Text)
    requires line == left + [ASSIGN] + right && ASSIGN !in left && Trimmed(left) != [] && IsTrimmed(line)
    requires left[0] != SECTION_START && left[0] != COMMENT && left[0] != ALTERNATE_COMMENT
    ensures Classify(line) == Pair(Trimmed(left), Trimmed(right))
  {
    TrimmedFixpoint(line);
    FirstAssign(left, right);
    assert line[..|left|] == left && line[|left| + 1..] == right;
  }

  /** Whitespace around a line does not matter. */
  lemma {:induction false} ClassifyTrimmed(raw: Text)
    ensures Classify(raw) == Classify(Trimmed(raw))
  {
    TrimmedFixpoint(raw);
    TrimmedFixpoint(Trimmed(raw));
  }

  lemma {:induction false} PairIs(raw: Text, key: Text, value: Text)
    requires IsPair(raw, key, value)
    ensures Classify(raw) == Pair(key, value)
  {
    var a, b, c, d :| Assigned(raw, a, key, b, c, value, d);
    var left := key + b;
    if value == [] {
      var line := left + [ASSIGN] + [];
      assert raw == a + line + (c + d);
      TrimmedIs(a, line, c + d);
      PairIsCore(raw, line, key, b, [], value, []);
    } else {
      var line := left + [ASSIGN] + (c + value);
      TrimmedIs(a, line, d);
      PairIsCore(raw, line, key, b, c, value, c + value);
    }
  }

  lemma {:induction false} PairIsCore(raw: Text, line: Text, key: Text, b: Text, c: Text, value: Text, right: Text)
    requires Trimmed(raw) == line == key + b + [ASSIGN] + right && right == c + value && AllSpace(b) && AllSpace(c)
    requires key != [] && IsTrimmed(key) && ASSIGN !in key && IsTrimmed(value) && IsTrimmed(line)
    requires key[0] != SECTION_START && key[0] != COMMENT && key[0] != ALTERNATE_COMMENT
    ensures Classify(raw) == Pair(key, value)
  {
    ClassifyTrimmed(raw);
    TrimmedKey(key, b);
    TrimmedValue(c, value);
    PairIsLine(line, key + b, right);
  }

  lemma {:induction false} TrimmedKey(key: Text, b: Text)
    requires IsTrimmed(key) && AllSpace(b)
    ensures Trimmed(key + b) == key
  {
    TrimmedIs([], key, b);
    assert [] + key + b == key + b;
  }

  lemma {:induction false} TrimmedValue(c: Text, value: Text)
    requires IsTrimmed(value) && AllSpace(c)
    ensures Trimmed(c + value) == value
  {
    TrimmedIs(c, value, []);
    assert c + value + [] == c + value;
  }

  // ---------------------------------------------------------------------------------------------
  // From the classification to the shape
  // ---------------------------------------------------------------------------------------------

  /** A line that is not blank begins with the first byte of its trimmed form. */
  lemma {:induction false} BeginsTrimmed(raw: Text)
    requires Trimmed(raw) != []
    ensures BeginsWith(raw, Trimmed(raw)[0]) && !IsSpace(Trimmed(raw)[0])
  {
    var pre, post := TrimmedSplit(raw);
    var line := Trimmed(raw);
    assert raw == pre + [line[0]] + (line[1..] + post);
    assert Begins(raw, pre, line[0], line[1..] + post);
  }

  lemma {:induction false} BlankIs(raw: Text)
    requires Trimmed(raw) == []
    ensures AllSpace(raw)
  {
    var pre, post := TrimmedSplit(raw);
    assert raw == pre + post;
  }

  lemma {:induction false} IsHeaderOf(raw: Text, name: Text)
    requires Classify(raw) == Header(name)
    ensures IsHeader(raw, name)
  {
    var a, d := TrimmedSplit(raw);
    var line := Trimmed(raw);
    Inside(line);
    var b, c := TrimmedSplit(line[1..|line| - 1]);
    HeaderParts(raw, a, line, b, name, c, d);
  }

  lemma {:induction false} Inside(line: Text)
    requires line != [] && line[0] == 0x5B && line[|line| - 1] == 0x5D
    ensures |line| >= 2 && line == [0x5B] + line[1..|line| - 1] + [0x5D]
  {
  }

  lemma {:induction false} HeaderParts(raw: Text, a: Text, line: Text, b: Text, name: Text, c: Text, d: Text)
    requires raw == a + line + d && line == [0x5B] + (b + name + c) + [0x5D] && name != [] && IsTrimmed(name)
    requires AllSpace(a) && AllSpace(b) && AllSpace(c) && AllSpace(d)
    ensures IsHeader(raw, name)
  {
    assert Bracketed(raw, a, b, name, c, d);
  }

  /** Whitespace cannot stand in front of a trimmed line. */
  lemma {:induction false} NoSpaceInFront(line: Text, front: Text, rest: Text)
    requires IsTrimmed(line) && AllSpace(front) && line == front + rest && rest != []
    ensures front == []
  {
  }

  /** A text in front of a trimmed line begins where its trimmed form begins. */
  lemma {:induction false} LeftPart(line: Text, left: Text, rest: Text) returns (b: Text)
    requires IsTrimmed(line) && line == left + rest && Trimmed(left) != []
    ensures left == Trimmed(left) + b && AllSpace(b) && Trimmed(left)[0] == line[0]
  {
    var front;
    front, b := TrimmedSplit(left);
    assert line == front + (Trimmed(left) + b + rest);
    NoSpaceInFront(line, front, Trimmed(left) + b + rest);
  }

  /** A trimmed line around an equals sign. */
  lemma {:induction false} LineParts(line: Text, i: nat, left: Text, right: Text) returns (b: Text, c: Text, back: Text)
    requires IsTrimmed(line) && i < |line| && line[i] == 0x3D && left == line[..i] && right == line[i + 1..]
    requires Trimmed(left) != []
    ensures AllSpace(b) && AllSpace(c) && AllSpace(back) && Trimmed(left)[0] == line[0]
    ensures line == Trimmed(left) + b + [0x3D] + (c + Trimmed(right) + back)
  {
    assert line == left + [0x3D] + right == left + ([0x3D] + right);
    b := LeftPart(line, left, [0x3D] + right);
    c, back := TrimmedSplit(right);
  }

  lemma {:induction false} IsPairOf(raw: Text, key: Text, value: Text)
    requires Classify(raw) == Pair(key, value)
    ensures IsPair(raw, key, value)
  {
    var line, i := Trimmed(raw), IndexOf(Trimmed(raw), ASSIGN);
    var a, post := TrimmedSplit(raw);
    var b, c, back := LineParts(line, i, line[..i], line[i + 1..]);
    PairParts(raw, a, line, post, key, b, c, value, back);
    TrimmedBytes(line[..i], 0x3D);
    TrimmedFixpoint(line[..i]);
    TrimmedFixpoint(line[i + 1..]);
  }

  lemma {:induction false} PairParts(raw: Text, a: Text, line: Text, post: Text, key: Text, b: Text, c: Text,
                                     value: Text, back: Text)
    requires raw == a + line + post && line == key + b + [0x3D] + (c + value + back)
    requires AllSpace(a) && AllSpace(b) && AllSpace(c) && AllSpace(back) && AllSpace(post)
    ensures Assigned(raw, a, key, b, c, value, back + post)
  {
    var core := key + b + [0x3D] + (c + value);
    assert line == core + back;
    assert raw == a + core + (back + post);
  }

  // ---------------------------------------------------------------------------------------------
  // Both ways
  // ---------------------------------------------------------------------------------------------

  /** Every line is classified as what its bytes mean. */
  lemma {:induction false} ClassifiedMeans(raw: Text)
    ensures Means(raw, Classify(raw))
  {
    if Trimmed(raw) == [] {
      BlankIs(raw);
    } else {
      BeginsTrimmed(raw);
      match Classify(raw)
      case Ignored =>
      case Header(name) => IsHeaderOf(raw, name);
      case Pair(key, value) => IsPairOf(raw, key, value);
      case BadHeader => NoShape(raw);
      case BadPair => NoShape(raw);
    }
  }

  lemma {:induction false} NoShape(raw: Text)
    requires Classify(raw).BadHeader? || Classify(raw).BadPair?
    ensures !IsIgnored(raw) && (Classify(raw).BadPair? ==> !BeginsWith(raw, 0x5B))
    ensures (forall name :: !IsHeader(raw, name)) && (forall key, value :: !IsPair(raw, key, value))
  {
    if IsIgnored(raw) { IgnoredIs(raw); }
    if Classify(raw).BadPair? && BeginsWith(raw, 0x5B) {
      var pre, rest :| Begins(raw, pre, 0x5B, rest);
      TrimmedBegins(raw, pre, 0x5B, rest);
    }
    forall name ensures !IsHeader(raw, name) {
      if IsHeader(raw, name) { HeaderIs(raw, name); }
    }
    forall key, value ensures !IsPair(raw, key, value) {
      if IsPair(raw, key, value) { PairIs(raw, key, value); }
    }
  }

  /** And a line means one thing only. */
  lemma {:induction false} MeaningIsUnique(raw: Text, line: Line)
    requires Means(raw, line)
    ensures line == Classify(raw)
  {
    ClassifiedMeans(raw);
    match line
    case Ignored => IgnoredIs(raw);
    case Header(name) => HeaderIs(raw, name);
    case Pair(key, value) => PairIs(raw, key, value);
    case BadHeader => BracketIsNoPair(raw);
    case BadPair =>
      if Trimmed(raw) != [] { BeginsTrimmed(raw); }
  }

  lemma {:induction false} BracketIsNoPair(raw: Text)
    requires BeginsWith(raw, 0x5B) && forall name :: !IsHeader(raw, name)
    ensures Classify(raw) == BadHeader
  {
    var pre, rest :| Begins(raw, pre, 0x5B, rest);
    TrimmedBegins(raw, pre, 0x5B, rest);
    if Classify(raw).Header? {
      IsHeaderOf(raw, Classify(raw).name);
    }
  }
}
