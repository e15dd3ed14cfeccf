/**
 * The two text templates of the locale service: the resource URL pattern
 * (`RES_PATTERN`), whose placeholders are replaced by the current locale,
 * and the `{name}` argument placeholders of resource values.
 */
module Templates {
  import opened Wrappers
  import opened Numerals
  import opened JsonValues
  import opened Strings

  function LowerChar(c: char): char {
    if 'A' <= c <= 'Z' then (c as int + 32) as char else c
  }

  /** ASCII lower case, the only case folding the `i` flag applies to these names. */
  function Lower(s: string): (r: string)
    ensures |r| == |s| && forall i :: 0 <= i < |s| ==> r[i] == LowerChar(s[i])
  {
    seq(|s|, i requires 0 <= i < |s| => LowerChar(s[i]))
  }

  /** The placeholder names `RES_PATTERN` accepts, in lower case. */
  const LocaleNames: set<string> := {"loc", "locale", "localekey", "lang", "langkey", "language"}

  /** A body `RES_PATTERN` matches: one of the names, in any letter case. */
  predicate IsLocalePlaceholder(t: string) {
    Lower(t) in LocaleNames
  }

  /** `url.replace(RES_PATTERN, locale)`: the URL the transport is asked for. */
  function Substitute(url: string, locale: string): (r: string)
    ensures '{' !in url ==> r == url
  {
    ExpandNoBraceIf(url, IsLocalePlaceholder, _ => locale);
    Expand(url, IsLocalePlaceholder, _ => locale)
  }

  /** A locale placeholder, in whatever letter case, becomes the locale. */
  lemma SubstitutePlaceholder(t: string, rest: string, locale: string)
    requires IsLocalePlaceholder(t)
    ensures Substitute("{" + t + "}" + rest, locale) == locale + Substitute(rest, locale)
  {
    ExpandToken(t, rest, IsLocalePlaceholder, _ => locale);
  }

  /** Characters other than an opening brace are copied unchanged. */
  lemma SubstituteText(p: string, rest: string, locale: string)
    requires '{' !in p
    ensures Substitute(p + rest, locale) == p + Substitute(rest, locale)
  {
    ExpandPrefix(p, rest, IsLocalePlaceholder, _ => locale);
  }

  /**
   * A brace that opens no locale placeholder is kept, like every other
   * character, and the scan goes on after it.
   */
  lemma SubstituteSkip(s: string, locale: string)
    requires s != [] && !(TokenAt(s).Some? && IsLocalePlaceholder(TokenAt(s).value))
    ensures Substitute(s, locale) == [s[0]] + Substitute(s[1..], locale)
  {
    ExpandSkip(s, IsLocalePlaceholder, _ => locale);
  }

  /** A braced name that is not a locale placeholder is kept whole. */
  lemma SubstituteUnmatched(t: string, rest: string, locale: string)
    requires '{' !in t && '}' !in t && !IsLocalePlaceholder(t)
    ensures Substitute("{" + t + "}" + rest, locale) == "{" + t + "}" + Substitute(rest, locale)
  {
    ExpandUnaccepted(t, rest, IsLocalePlaceholder, _ => locale);
  }

  /** A typical resource URL template resolves to the locale's file. */
  lemma SubstituteExample(locale: string)
    ensures Substitute("/i18n/{Lang}.json", locale) == "/i18n/" + locale + ".json"
  {
    var dir, name, ext := "/i18n/", "Lang", ".json";
    assert IsLocalePlaceholder(name) by {
      assert Lower(name) == "lang";
    }
    calc {
      Substitute("/i18n/{Lang}.json", locale);
      { assert "/i18n/{Lang}.json" == dir + ("{" + name + "}" + ext); }
      Substitute(dir + ("{" + name + "}" + ext), locale);
      { SubstituteText(dir, "{" + name + "}" + ext, locale); }
      dir + Substitute("{" + name + "}" + ext, locale);
      { SubstitutePlaceholder(name, ext, locale); }
      dir + (locale + Substitute(ext, locale));
      { SubstituteText(ext, "", locale); assert ext + "" == ext; }
      dir + (locale + (ext + Substitute("", locale)));
    }
  }

  predicate IsWordChar(c: char) {
    '0' <= c <= '9' || 'a' <= c <= 'z' || 'A' <= c <= 'Z' || c == '_' || c == '$'
  }

  /** A body the argument pattern matches: one or more of `[0-9A-Za-z_$]`. */
  predicate IsArgToken(t: string) {
    |t| >= 1 && forall i :: 0 <= i < |t| ==> IsWordChar(t[i])
  }

  /**
   * The text substituted for the placeholder `{t}`: a property of the one
   * object argument, or else the argument at index `t`; a missing value
   * gives the text "undefined".
   */
  function ArgText(args: seq<Json>, t: string): (r: string)
    ensures args == [] ==> r == "undefined"
  {
    if |args| == 1 && args[0].Obj? then
      if t in args[0].obj.vals then ToText(args[0].obj.vals[t]) else "undefined"
    else
      match ParseIndex(t)
      case Some(i) => if i < |args| then ToText(args[i]) else "undefined"
      case None => "undefined"
  }

  /** `text.replace(/{([0-9a-z_$]+)}/gi, ...)` with the argument lookup above. */
  function Interpolate(text: string, args: seq<Json>): (r: string)
    ensures !HasToken(text, IsArgToken) ==> r == text
  {
    ExpandNoTokenIf(text, IsArgToken, t => ArgText(args, t));
    Expand(text, IsArgToken, t => ArgText(args, t))
  }

  /** With positional arguments, `{i}` names the i-th argument. */
  lemma ArgPositional(args: seq<Json>, i: nat)
    requires i < |args| && !(|args| == 1 && args[0].Obj?)
    ensures ArgText(args, Decimal(i)) == ToText(args[i])
  {
    DecimalRoundTrip(i);
  }

  /** With positional arguments, a name that is not an index in range gives "undefined". */
  lemma ArgPositionalMissing(args: seq<Json>, t: string)
    requires !(|args| == 1 && args[0].Obj?)
    requires forall i :: 0 <= i < |args| ==> t != Decimal(i)
    ensures ArgText(args, t) == "undefined"
  {
    match ParseIndex(t)
    case Some(i) => ParseIndexDecimal(t, i);
    case None =>
  }

  /** With one object argument, a name it does not hold gives "undefined". */
  lemma ArgNamedMissing(args: seq<Json>, t: string)
    requires |args| == 1 && args[0].Obj? && t !in args[0].obj.vals
    ensures ArgText(args, t) == "undefined"
  {
  }

  /**
   * A brace that opens no argument placeholder, such as the one in
   * `{user.name}`, is kept, and the scan goes on after it.
   */
  lemma InterpolateSkip(s: string, args: seq<Json>)
    requires s != [] && !(TokenAt(s).Some? && IsArgToken(TokenAt(s).value))
    ensures Interpolate(s, args) == [s[0]] + Interpolate(s[1..], args)
  {
    ExpandSkip(s, IsArgToken, t => ArgText(args, t));
  }

  /** A braced text that is not an argument placeholder, such as `{user.name}`, is kept whole. */
  lemma InterpolateUnmatched(t: string, rest: string, args: seq<Json>)
    requires '{' !in t && '}' !in t && !IsArgToken(t)
    ensures Interpolate("{" + t + "}" + rest, args) == "{" + t + "}" + Interpolate(rest, args)
  {
    ExpandUnaccepted(t, rest, IsArgToken, t => ArgText(args, t));
  }

  /** An argument token is replaced by its argument's text. */
  lemma InterpolateToken(t: string, rest: string, args: seq<Json>)
    requires IsArgToken(t)
    ensures Interpolate("{" + t + "}" + rest, args) == ArgText(args, t) + Interpolate(rest, args)
  {
    ExpandToken(t, rest, IsArgToken, t => ArgText(args, t));
  }

  /** Characters other than an opening brace are copied unchanged. */
  lemma InterpolateText(p: string, rest: string, args: seq<Json>)
    requires '{' !in p
    ensures Interpolate(p + rest, args) == p + Interpolate(rest, args)
  {
    ExpandPrefix(p, rest, IsArgToken, t => ArgText(args, t));
  }

  /** `{i}` with positional arguments becomes the text of argument i. */
  lemma InterpolatePositional(i: nat, rest: string, args: seq<Json>)
    requires i < |args| && !(|args| == 1 && args[0].Obj?)
    ensures Interpolate("{" + Decimal(i) + "}" + rest, args) == ToText(args[i]) + Interpolate(rest, args)
  {
    var d := Decimal(i);
    assert IsArgToken(d);
    InterpolateToken(d, rest, args);
    ArgPositional(args, i);
  }

  /** `{name}` with one object argument becomes the text of its property. */
  lemma InterpolateNamed(t: string, rest: string, args: seq<Json>)
    requires IsArgToken(t) && |args| == 1 && args[0].Obj? && t in args[0].obj.vals
    ensures Interpolate("{" + t + "}" + rest, args) == ToText(args[0].obj.vals[t]) + Interpolate(rest, args)
  {
    InterpolateToken(t, rest, args);
  }

  /** Text without an argument placeholder is left as it is, whatever the arguments. */
  lemma InterpolatePlain(text: string, args: seq<Json>)
    requires !HasToken(text, IsArgToken)
    ensures Interpolate(text, args) == text
  {
    ExpandNoToken(text, IsArgToken, t => ArgText(args, t));
  }

  /** `"hi {0}"` with the argument `name` reads `"hi "` followed by `name`. */
  lemma InterpolateExample(name: string)
    ensures Interpolate("hi {0}", [Str(name)]) == "hi " + name
  {
    var args := [Str(name)];
    var token := "{" + Decimal(0) + "}";
    assert "hi {0}" == "hi " + (token + "") by {
      assert Decimal(0) == "0";
    }
    InterpolateText("hi ", token + "", args);
    InterpolatePositional(0, "", args);
    assert Interpolate("", args) == "";
  }
}
