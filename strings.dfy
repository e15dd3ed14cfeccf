/**
 * String scanning shared by the locale service: the left-to-right
 * replacement of `{token}` occurrences that `String.prototype.replace` does
 * with a global brace pattern, and `String.prototype.split(".")`.
 */
module Strings {
  import opened Wrappers

  /** The index of the first `}` in `s`, if there is one. */
  function CloseBrace(s: string): (r: Option<nat>)
    ensures r.Some? ==> r.value < |s| && s[r.value] == '}' && '}' !in s[..r.value]
    ensures r.None? ==> '}' !in s
    decreases |s|
  {
    if s == [] then None
    else if s[0] == '}' then Some(0)
    else match CloseBrace(s[1..])
      case None => None
      case Some(j) =>
        assert s[..j + 1] == [s[0]] + s[1..][..j];
        Some(j + 1)
  }

  /**
   * The body of the brace token `s` starts with: the text between a leading
   * `{` and the first `}` after it.
   */
  function TokenAt(s: string): (r: Option<string>)
    ensures r.Some? ==> |r.value| + 2 <= |s| && s[..|r.value| + 2] == "{" + r.value + "}"
    ensures r.Some? ==> '}' !in r.value
  {
    if s != [] && s[0] == '{' then
      match CloseBrace(s[1..])
      case Some(j) => Some(s[1..1 + j])
      case None => None
    else None
  }

  /**
   * Replace, from left to right, every brace token whose body `accept`s with
   * `render(body)`, and keep every other character. A pattern of the form
   * `{(body)}` whose body class excludes `{` and `}` matches at a position
   * exactly when the text up to the next `}` is an accepted body, so this is
   * the scan a global `replace` performs with such a pattern.
   */
  function Expand(s: string, accept: string -> bool, render: string -> string): (r: string)
    decreases |s|
  {
    if s == [] then []
    else
      var tok := TokenAt(s);
      if tok.Some? && accept(tok.value) then
        render(tok.value) + Expand(s[|tok.value| + 2..], accept, render)
      else
        [s[0]] + Expand(s[1..], accept, render)
  }

  /** Text without an opening brace passes through unchanged. */
  lemma {:induction false} ExpandPrefix(p: string, rest: string, accept: string -> bool, render: string -> string)
    requires '{' !in p
    ensures Expand(p + rest, accept, render) == p + Expand(rest, accept, render)
    decreases |p|
  {
    if p != [] {
      assert (p + rest)[0] == p[0] && (p + rest)[1..] == p[1..] + rest;
      assert TokenAt(p + rest).None?;
      assert Expand(p + rest, accept, render) == [p[0]] + Expand(p[1..] + rest, accept, render);
      ExpandPrefix(p[1..], rest, accept, render);
      var e := Expand(rest, accept, render);
      assert [p[0]] + p[1..] == p;
      assert [p[0]] + (p[1..] + e) == p + e;
    } else {
      assert p + rest == rest;
    }
  }

  /** `ExpandPrefix` with nothing after the prefix, for callers that do not know whether the text holds a brace. */
  lemma ExpandNoBraceIf(s: string, accept: string -> bool, render: string -> string)
    ensures '{' !in s ==> Expand(s, accept, render) == s
  {
    if '{' !in s {
      ExpandPrefix(s, [], accept, render);
      assert s + [] == s;
    }
  }

  /** A brace, a body without `}`, and a `}` form the token with that body. */
  lemma TokenAtBrace(t: string, rest: string)
    requires '}' !in t
    ensures TokenAt("{" + t + "}" + rest) == Some(t)
  {
    var s := "{" + t + "}" + rest;
    assert s[1..] == t + "}" + rest;
    var c := CloseBrace(s[1..]);
    assert s[1..][|t|] == '}';
    assert c.Some? && c.value == |t|;
    assert s[1..1 + |t|] == t;
  }

  /** An accepted token is replaced by its rendering, and scanning resumes after it. */
  lemma ExpandToken(t: string, rest: string, accept: string -> bool, render: string -> string)
    requires '}' !in t && accept(t)
    ensures Expand("{" + t + "}" + rest, accept, render) == render(t) + Expand(rest, accept, render)
  {
    var s := "{" + t + "}" + rest;
    TokenAtBrace(t, rest);
    assert s[|t| + 2..] == rest;
  }

  /**
   * A token whose body is not accepted, and holds no brace of its own, is
   * copied whole, and scanning resumes after it.
   */
  lemma ExpandUnaccepted(t: string, rest: string, accept: string -> bool, render: string -> string)
    requires '{' !in t && '}' !in t && !accept(t)
    ensures Expand("{" + t + "}" + rest, accept, render) == "{" + t + "}" + Expand(rest, accept, render)
  {
    var s := "{" + t + "}" + rest;
    TokenAtBrace(t, rest);
    ExpandSkip(s, accept, render);
    assert s[1..] == (t + "}") + rest;
    ExpandPrefix(t + "}", rest, accept, render);
    var e := Expand(rest, accept, render);
    assert [s[0]] + ((t + "}") + e) == "{" + t + "}" + e;
  }

  /**
   * A position that does not open an accepted token, an opening brace
   * included, is copied as it is and the scan moves on by one character.
   */
  lemma ExpandSkip(s: string, accept: string -> bool, render: string -> string)
    requires s != [] && !(TokenAt(s).Some? && accept(TokenAt(s).value))
    ensures Expand(s, accept, render) == [s[0]] + Expand(s[1..], accept, render)
  {
  }

  /** Whether the scan of `Expand` meets at least one accepted token. */
  function HasToken(s: string, accept: string -> bool): bool
    decreases |s|
  {
    if s == [] then false
    else
      var tok := TokenAt(s);
      if tok.Some? && accept(tok.value) then true else HasToken(s[1..], accept)
  }

  /** A text that starts with an accepted token has one. */
  lemma HasTokenAt(t: string, rest: string, accept: string -> bool)
    requires '}' !in t && accept(t)
    ensures HasToken("{" + t + "}" + rest, accept)
  {
    TokenAtBrace(t, rest);
  }

  /** Text in which no token is accepted comes out of `Expand` unchanged. */
  lemma {:induction false} ExpandNoToken(s: string, accept: string -> bool, render: string -> string)
    requires !HasToken(s, accept)
    ensures Expand(s, accept, render) == s
    decreases |s|
  {
    if s != [] {
      ExpandNoToken(s[1..], accept, render);
      assert [s[0]] + s[1..] == s;
    }
  }

  /** `ExpandNoToken`, for callers that do not know whether a token is accepted. */
  lemma ExpandNoTokenIf(s: string, accept: string -> bool, render: string -> string)
    ensures !HasToken(s, accept) ==> Expand(s, accept, render) == s
  {
    if !HasToken(s, accept) {
      ExpandNoToken(s, accept, render);
    }
  }

  /** `split(".")`: the maximal dot-free pieces of `s`, at least one. */
  function Split(s: string): (parts: seq<string>)
    ensures |parts| >= 1
    ensures forall i :: 0 <= i < |parts| ==> '.' !in parts[i]
    decreases |s|
  {
    if s == [] then [""]
    else
      var rest := Split(s[1..]);
      if s[0] == '.' then [""] + rest
      else [[s[0]] + rest[0]] + rest[1..]
  }

  /** `join(".")`, the inverse of `Split`. */
  function Join(parts: seq<string>): string
    requires |parts| >= 1
    decreases |parts|
  {
    if |parts| == 1 then parts[0] else parts[0] + "." + Join(parts[1..])
  }

  lemma {:induction false} JoinSplit(s: string)
    ensures Join(Split(s)) == s
    decreases |s|
  {
    if s != [] {
      JoinSplit(s[1..]);
      var rest := Split(s[1..]);
      if s[0] != '.' {
        var parts := Split(s);
        assert parts[1..] == rest[1..];
        if |rest| == 1 {
          assert Join(parts) == parts[0];
        } else {
          assert rest == [rest[0]] + rest[1..];
          assert Join(rest) == rest[0] + "." + Join(rest[1..]);
        }
      }
    }
  }

  /** Splitting a dot-free piece followed by a dot peels off that piece. */
  lemma {:induction false} SplitPiece(p: string, rest: string)
    requires '.' !in p
    ensures Split(p + "." + rest) == [p] + Split(rest)
    decreases |p|
  {
    if p != [] {
      assert (p + "." + rest)[1..] == p[1..] + "." + rest;
      SplitPiece(p[1..], rest);
      assert [p[0]] + p[1..] == p;
    }
  }

  /** A dot-free string splits into itself. */
  lemma {:induction false} SplitPlain(p: string)
    requires '.' !in p
    ensures Split(p) == [p]
    decreases |p|
  {
    if p != [] {
      SplitPlain(p[1..]);
      assert [p[0]] + p[1..] == p;
    }
  }

  lemma {:induction false} SplitJoin(parts: seq<string>)
    requires |parts| >= 1
    requires forall i :: 0 <= i < |parts| ==> '.' !in parts[i]
    ensures Split(Join(parts)) == parts
    decreases |parts|
  {
    if |parts| == 1 {
      SplitPlain(parts[0]);
    } else {
      SplitJoin(parts[1..]);
      SplitPiece(parts[0], Join(parts[1..]));
    }
  }
}
