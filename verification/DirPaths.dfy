/** Directory paths as strings and as components. */
module DirPaths {
  import opened Bytes

  /** The delimiter '/'. */
  const DELIM: byte := 47

  type Name = seq<byte>

  /** A component: not empty, no delimiter inside. */
  predicate IsName(s: Name)
  {
    s != [] && DELIM !in s
  }

  predicate AreNames(parts: seq<Name>)
  {
    forall i :: 0 <= i < |parts| ==> IsName(parts[i])
  }

  /** The length of the first run of bytes other than the delimiter. */
  function Span(s: seq<byte>): (k: nat)
    ensures k <= |s| && DELIM !in s[..k] && (k < |s| ==> s[k] == DELIM)
  {
    if s == [] || s[0] == DELIM then 0
    else
      assert s[..1 + Span(s[1..])] == [s[0]] + s[1..][..Span(s[1..])];
      1 + Span(s[1..])
  }

  /** The non-empty components of a string, as a tokenizer yields them. */
  function Tokens(s: seq<byte>): (parts: seq<Name>)
    ensures AreNames(parts)
  {
    if s == [] then []
    else if s[0] == DELIM then Tokens(s[1..])
    else [s[..Span(s)]] + Tokens(s[Span(s)..])
  }

  /** Components joined by the delimiter. */
  function Joined(parts: seq<Name>): seq<byte>
  {
    if parts == [] then []
    else if |parts| == 1 then parts[0]
    else Joined(parts[..|parts| - 1]) + [DELIM] + parts[|parts| - 1]
  }

  lemma JoinedSnoc(parts: seq<Name>, p: Name)
    ensures Joined(parts + [p]) == if parts == [] then p else Joined(parts) + [DELIM] + p
  {
    assert (parts + [p])[..|parts|] == parts;
  }

  lemma {:induction false} JoinedCons(p: Name, parts: seq<Name>)
    ensures Joined([p] + parts) == if parts == [] then p else p + [DELIM] + Joined(parts)
    decreases |parts|
  {
    hide Joined;
    if parts == [] {
      assert [p] + parts == [] + [p];
      JoinedSnoc([], p);
    } else {
      var front, last := parts[..|parts| - 1], parts[|parts| - 1];
      JoinedCons(p, front);
      assert [p] + parts == ([p] + front) + [last] && parts == front + [last];
      JoinedSnoc([p] + front, last);
      JoinedSnoc(front, last);
      JoinTwice(p, Joined(front), last);
    }
  }

  lemma JoinTwice(p: seq<byte>, q: seq<byte>, r: seq<byte>)
    ensures p + [DELIM] + q + [DELIM] + r == p + [DELIM] + (q + [DELIM] + r)
  {
  }

  lemma {:induction false} SpanOf(p: Name, rest: seq<byte>)
    requires DELIM !in p && (rest == [] || rest[0] == DELIM)
    ensures Span(p + rest) == |p|
  {
    if p == [] {
      assert p + rest == rest;
    } else {
      assert (p + rest)[1..] == p[1..] + rest;
      SpanOf(p[1..], rest);
    }
  }

  lemma TokensFirst(p: Name, rest: seq<byte>)
    requires IsName(p) && (rest == [] || rest[0] == DELIM)
    ensures Tokens(p + rest) == [p] + Tokens(rest)
  {
    SpanOf(p, rest);
    assert (p + rest)[..|p|] == p && (p + rest)[|p|..] == rest;
  }

  /** Splitting joined components gives them back. */
  lemma {:induction false} TokensJoined(parts: seq<Name>)
    requires AreNames(parts)
    ensures Tokens(Joined(parts)) == parts
    decreases |parts|
  {
    if parts != [] {
      var p, rest := parts[0], parts[1..];
      assert parts == [p] + rest;
      JoinedCons(p, rest);
      TokensJoined(rest);
      if rest == [] {
        assert p + [] == p;
        TokensFirst(p, []);
      } else {
        assert p + [DELIM] + Joined(rest) == p + ([DELIM] + Joined(rest));
        TokensFirst(p, [DELIM] + Joined(rest));
        assert ([DELIM] + Joined(rest))[1..] == Joined(rest);
      }
    }
  }

  /** A path string in the form the archive uses: components with one delimiter between them. */
  predicate Normal(s: seq<byte>)
  {
    s != [] && Joined(Tokens(s)) == s
  }

  lemma JoinedIsNormal(parts: seq<Name>)
    requires AreNames(parts) && parts != []
    ensures Normal(Joined(parts))
  {
    TokensJoined(parts);
    JoinedCons(parts[0], parts[1..]);
    assert parts == [parts[0]] + parts[1..];
  }
}
