/** Which paths an archive may be extracted under. */
module SafePaths {
  import opened Bytes
  import opened DirPaths

  const BACKSLASH: byte := 92
  const DOT: byte := 46

  /** The component that leads to the parent directory. */
  const UP: Name := [DOT, DOT]

  predicate StartsWith(s: seq<byte>, p: seq<byte>) { p <= s }

  /** p stands somewhere in s. */
  predicate Contains(s: seq<byte>, p: seq<byte>)
  {
    exists i :: 0 <= i <= |s| && StartsWith(s[i..], p)
  }

  predicate IsLetter(b: byte) { 65 <= b <= 90 || 97 <= b <= 122 }

  /** A drive letter, a colon being byte 58. */
  predicate HasDrive(p: seq<byte>)
  {
    |p| >= 2 && p[1] == 58 && IsLetter(p[0])
  }

  /** Steps up as the program looks for them, with d between components. */
  predicate LeadsUp(p: seq<byte>, d: byte)
  {
    StartsWith(p, UP + [d]) || Contains(p, [d] + UP + [d])
  }

  /** The program's test: paths that are neither absolute nor lead upwards. */
  predicate SafePath(p: seq<byte>)
  {
    (p != [] ==> p[0] != DELIM && p[0] != BACKSLASH) && !HasDrive(p) && !LeadsUp(p, DELIM) && !LeadsUp(p, BACKSLASH)
  }

  // ----- what the test means for the components ------------------------------------------------------------------

  lemma FirstByte(s: seq<byte>, i: nat, p: seq<byte>)
    requires i <= |s| && p != [] && StartsWith(s[i..], p)
    ensures i < |s| && s[i] == p[0]
  {
    assert s[i] == s[i..][0];
  }

  /** What is found in a string is made of its bytes. */
  lemma FoundBytes(s: seq<byte>, p: seq<byte>, k: nat)
    requires Contains(s, p) && k < |p|
    ensures p[k] in s
  {
    var i :| 0 <= i <= |s| && StartsWith(s[i..], p);
    assert s[i + k] == s[i..][k] == p[k];
  }

  lemma PrefixFound(s: seq<byte>, p: seq<byte>)
    requires StartsWith(s, p)
    ensures Contains(s, p)
  {
    assert s[0..] == s;
  }

  lemma NotInName(name: Name, s: seq<byte>, i: nat)
    requires IsName(name) && name <= s && i < |s| && s[i] == DELIM
    ensures i >= |name|
  {
  }

  lemma Behind(name: Name, tail: seq<byte>, i: nat)
    requires i <= |tail|
    ensures |name| + 1 + i <= |name + [DELIM] + tail| && (name + [DELIM] + tail)[|name| + 1 + i..] == tail[i..]
  {
  }

  lemma AtDelimiter(name: Name, tail: seq<byte>)
    ensures (name + [DELIM] + tail)[|name|..] == [DELIM] + tail
  {
  }

  /** Two dots between delimiters are not found inside a name, but right behind it or later. */
  lemma FoundInTail(name: Name, tail: seq<byte>)
    requires IsName(name) && Contains(name + [DELIM] + tail, [DELIM] + UP + [DELIM])
    ensures StartsWith(tail, UP + [DELIM]) || Contains(tail, [DELIM] + UP + [DELIM])
  {
    hide StartsWith, IsName;
    var p, s, k := [DELIM] + UP + [DELIM], name + [DELIM] + tail, |name|;
    var i :| 0 <= i <= |s| && StartsWith(s[i..], p);
    FirstByte(s, i, p);
    assert name <= s;
    NotInName(name, s, i);
    AtDelimiter(name, tail);
    if i == k {
      SameTail(tail, p);
    } else {
      Behind(name, tail, i - k - 1);
      assert StartsWith(tail[i - k - 1..], p);
    }
  }

  lemma TailFound(name: Name, tail: seq<byte>)
    requires StartsWith(tail, UP + [DELIM]) || Contains(tail, [DELIM] + UP + [DELIM])
    ensures Contains(name + [DELIM] + tail, [DELIM] + UP + [DELIM])
  {
    var p, s := [DELIM] + UP + [DELIM], name + [DELIM] + tail;
    AtDelimiter(name, tail);
    if StartsWith(tail, UP + [DELIM]) {
      assert [DELIM] + (UP + [DELIM]) == p;
      assert StartsWith(s[|name|..], p);
    } else {
      var i :| 0 <= i <= |tail| && StartsWith(tail[i..], p);
      Behind(name, tail, i);
      assert StartsWith(s[|name| + 1 + i..], p);
    }
  }

  lemma SameTail(tail: seq<byte>, p: seq<byte>)
    requires p == [DELIM] + UP + [DELIM] && StartsWith([DELIM] + tail, p)
    ensures StartsWith(tail, UP + [DELIM])
  {
    assert ([DELIM] + tail)[1..] == tail && p[1..] == UP + [DELIM];
  }

  lemma StartsUp(name: Name, tail: seq<byte>)
    requires IsName(name)
    ensures StartsWith(name + [DELIM] + tail, UP + [DELIM]) <==> name == UP
  {
    var s, p := name + [DELIM] + tail, UP + [DELIM];
    if p <= s {
      assert s[0] == DOT && s[1] == DOT && s[2] == DELIM;
      assert forall i :: 0 <= i < |name| ==> s[i] == name[i];
      assert s[|name|] == DELIM;
    }
    if name == UP {
      assert s == p + tail;
    }
  }

  /** Without the delimiter there is no step up. */
  lemma NoStep(p: seq<byte>, d: byte)
    requires d !in p
    ensures !LeadsUp(p, d)
  {
    hide Contains, StartsWith;
    if StartsWith(p, UP + [d]) {
      PrefixFound(p, UP + [d]);
      FoundBytes(p, UP + [d], 2);
    } else if Contains(p, [d] + UP + [d]) {
      FoundBytes(p, [d] + UP + [d], 0);
    }
  }

  /** The test finds a step up exactly when a component other than the last is one. */
  lemma {:induction false} LeadsUpIff(parts: seq<Name>)
    requires AreNames(parts) && parts != []
    ensures LeadsUp(Joined(parts), DELIM) <==> exists i :: 0 <= i < |parts| - 1 && parts[i] == UP
  {
    hide LeadsUp, Joined;
    var name, rest := parts[0], parts[1..];
    assert parts == [name] + rest;
    JoinedCons(name, rest);
    if rest == [] {
      NoStep(name, DELIM);
    } else {
      LeadsUpIff(rest);
      LeadsUpCons(name, Joined(rest));
      if i :| 0 <= i < |rest| - 1 && rest[i] == UP {
        assert parts[i + 1] == UP;
      }
      if i :| 0 <= i < |parts| - 1 && parts[i] == UP {
        assert i > 0 ==> rest[i - 1] == UP;
      }
    }
  }

  lemma LeadsUpCons(name: Name, tail: seq<byte>)
    requires IsName(name)
    ensures LeadsUp(name + [DELIM] + tail, DELIM) <==> name == UP || LeadsUp(tail, DELIM)
  {
    hide StartsWith, Contains;
    StartsUp(name, tail);
    if Contains(name + [DELIM] + tail, [DELIM] + UP + [DELIM]) {
      FoundInTail(name, tail);
    }
    if StartsWith(tail, UP + [DELIM]) || Contains(tail, [DELIM] + UP + [DELIM]) {
      TailFound(name, tail);
    }
  }

  /** Four bytes at i. */
  predicate StandsAt(p: seq<byte>, i: nat, a: byte, b: byte, c: byte, d: byte)
  {
    i + 4 <= |p| && p[i] == a && p[i + 1] == b && p[i + 2] == c && p[i + 3] == d
  }

  lemma BackslashUp(p: seq<byte>)
    ensures LeadsUp(p, 92) <==>
            (|p| >= 3 && p[0] == 46 && p[1] == 46 && p[2] == 92) || exists i :: 0 <= i < |p| && StandsAt(p, i, 92, 46, 46, 92)
  {
    var t := [92] + UP + [92];
    if |p| >= 3 && p[0] == 46 && p[1] == 46 && p[2] == 92 { assert p[..3] == UP + [92]; }
    if i :| 0 <= i < |p| && StandsAt(p, i, 92, 46, 46, 92) {
      assert p[i..][..4] == t;
      assert StartsWith(p[i..], t);
    }
    if i :| 0 <= i <= |p| && StartsWith(p[i..], t) {
      assert p[i..][..4] == t;
      assert p[i] == t[0] && p[i + 1] == t[1] && p[i + 2] == t[2] && p[i + 3] == t[3];
      assert StandsAt(p, i, 92, 46, 46, 92);
    }
  }

  /** A path in the archive's form is safe exactly when it does not begin with a backslash or a letter and a colon,
      has no step up spelt with backslashes, and no component other than the last is two dots. */
  lemma SafeIff(parts: seq<Name>)
    requires AreNames(parts) && parts != []
    ensures var p := Joined(parts);
            && p != []
            && (SafePath(p) <==>
                && p[0] != 92
                && !(|p| >= 2 && p[1] == 58 && (65 <= p[0] <= 90 || 97 <= p[0] <= 122))
                && !(|p| >= 3 && p[0] == 46 && p[1] == 46 && p[2] == 92)
                && !(exists i :: 0 <= i < |p| && StandsAt(p, i, 92, 46, 46, 92))
                && forall i :: 0 <= i < |parts| - 1 ==> parts[i] != [46, 46])
  {
    hide LeadsUp, Joined;
    LeadsUpIff(parts);
    BackslashUp(Joined(parts));
    JoinedCons(parts[0], parts[1..]);
    assert parts == [parts[0]] + parts[1..];
    assert parts[0][0] != DELIM by { assert parts[0][0] in parts[0]; }
  }

  /** The last component is not looked at: the path of a parent directory by itself, or at the end, passes. */
  lemma LastIsFree()
    ensures SafePath(UP) && SafePath([97, DELIM] + UP)
  {
    hide LeadsUp;
    NoStep(UP, DELIM);
    LeadsUpCons([97], UP);
    assert [97] + [DELIM] + UP == [97, DELIM] + UP;
    NoStep(UP, BACKSLASH);
    NoStep([97, DELIM] + UP, BACKSLASH);
  }
}
