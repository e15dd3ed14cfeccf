/**
 * The `Locale` resource store: the current locale tag, the provenance
 * ledger (origin URL to the top-level keys it contributed) and the active
 * bundle, with lookup, fetch-and-install, merge, dispose and exclude.
 *
 * The HTTP transport is not modelled: `Origin` and `Merge` receive what the
 * fetch of the requested URL produced (the parsed object, or the reason it
 * failed) and return the URL they asked for. The page's `document.body.lang`
 * is the field `docLang`. An operation that emits through an observable
 * returns what it would emit.
 */
module LocaleService {
  import opened Wrappers
  import opened JsonValues
  import opened Objects
  import opened Strings
  import opened Templates

  /** What an operation raises. */
  datatype Error =
    | TypeError                   // a property access on `null` or `undefined`
    | FetchError(reason: string)  // transport or parse failure, passed on unchanged

  /** How a dot-path walk ends: at a node after `depth` steps, or by faulting. */
  datatype Walk = Stopped(node: Json, depth: nat) | Fault

  function Shifted(w: Walk, n: nat): Walk {
    match w
    case Stopped(node, d) => Stopped(node, d + n)
    case Fault => Fault
  }

  /**
   * The walk `get` performs: step into each segment while it is an own
   * property of the current node, stop at the first one that is not, and
   * fault when asked for a property of `null`.
   */
  function Descend(node: Json, parts: seq<string>): (w: Walk)
    ensures w.Stopped? ==> w.depth <= |parts|
    decreases |parts|
  {
    if parts == [] then Stopped(node, 0)
    else
      match node
      case Null => Fault
      case Obj(o) =>
        if parts[0] in o.vals then Shifted(Descend(o.vals[parts[0]], parts[1..]), 1)
        else Stopped(node, 0)
      case _ => Stopped(node, 0)
  }

  /** The node at the end of a path whose every segment exists. */
  function Path(node: Json, parts: seq<string>): Option<Json>
    decreases |parts|
  {
    if parts == [] then Some(node)
    else if node.Obj? && parts[0] in node.obj.vals then Path(node.obj.vals[parts[0]], parts[1..])
    else None
  }

  /** An own property, or `undefined`. */
  function Lookup(o: Object, k: string): Option<Json> {
    if k in o.vals then Some(o.vals[k]) else None
  }

  /**
   * The value `get` resolves before interpolation: the whole key as a flat
   * property when the walk never left the root, else the last node reached.
   * With no bundle the value is falsy.
   */
  function Resolve(resources: Option<Object>, key: string): (r: Result<Option<Json>, Error>)
    ensures resources.None? ==> r == Success(None)
    ensures r.Failure? ==> r.error == TypeError
  {
    match resources
    case None => Success(None)
    case Some(b) =>
      match Descend(Obj(b), Split(key))
      case Fault => Failure(TypeError)
      case Stopped(node, depth) => Success(if depth == 0 then Lookup(b, key) else Some(node))
  }

  /**
   * What `get` makes of a resolved value: interpolate arguments into a truthy
   * value, then fall back to the key itself when the value is falsy.
   */
  function Finish(value: Option<Json>, key: string, args: seq<Json>): (r: Json)
    ensures Truthy(r) || r == Str(key)
    ensures !TruthyOpt(value) ==> r == Str(key)
    ensures TruthyOpt(value) && args == [] ==> r == value.value
    ensures TruthyOpt(value) && args != [] ==>
      var text := Interpolate(ToText(value.value), args);
      r == if text != "" then Str(text) else Str(key)
  {
    var v := if |args| > 0 && TruthyOpt(value) then Some(Str(Interpolate(ToText(value.value), args))) else value;
    if TruthyOpt(v) then v.value else Str(key)
  }

  /**
   * A lone `null` argument is taken for an object of named arguments
   * (`typeof null` is "object"), so the first placeholder reads a property
   * of `null` and raises.
   */
  predicate NullArgument(value: Option<Json>, args: seq<Json>): (b: bool)
    ensures !b && TruthyOpt(value) && args == [Null] ==> Interpolate(ToText(value.value), args) == ToText(value.value)
  {
    TruthyOpt(value) && args == [Null] && HasToken(ToText(value.value), IsArgToken)
  }

  /** The full result of `get(key, ...args)`. */
  function GetSpec(resources: Option<Object>, key: string, args: seq<Json>): (r: Result<Json, Error>)
    ensures r.Success? ==> Truthy(r.value) || r.value == Str(key)
    ensures resources.None? ==> r == Success(Str(key))
    ensures r.Failure? ==> r.error == TypeError
    ensures r.Failure? <==> Resolve(resources, key).Failure? || NullArgument(Resolve(resources, key).value, args)
  {
    match Resolve(resources, key)
    case Failure(e) => Failure(e)
    case Success(v) => if NullArgument(v, args) then Failure(TypeError) else Success(Finish(v, key, args))
  }

  /**
   * A key that resolves to a truthy text without placeholders gives that
   * text, whatever the arguments.
   */
  lemma GetPlain(b: Object, key: string, text: string, args: seq<Json>)
    requires Resolve(Some(b), key) == Success(Some(Str(text)))
    requires text != "" && !HasToken(text, IsArgToken)
    ensures GetSpec(Some(b), key, args) == Success(Str(text))
  {
    assert ToText(Str(text)) == text;
    InterpolatePlain(text, args);
  }

  /** A key that resolves to a text with a placeholder raises when the only argument is `null`. */
  lemma GetNullArgument(b: Object, key: string, t: string, rest: string)
    requires Resolve(Some(b), key) == Success(Some(Str("{" + t + "}" + rest)))
    requires IsArgToken(t)
    ensures GetSpec(Some(b), key, [Null]) == Failure(TypeError)
  {
    forall i | 0 <= i < |t| ensures t[i] != '}' {
      assert IsWordChar(t[i]);
    }
    HasTokenAt(t, rest, IsArgToken);
    assert ToText(Str("{" + t + "}" + rest)) == "{" + t + "}" + rest;
  }

  /** Walking a path whose segments all exist ends at the path's node, after every segment. */
  lemma {:induction false} DescendPath(node: Json, parts: seq<string>)
    requires Path(node, parts).Some?
    ensures Descend(node, parts) == Stopped(Path(node, parts).value, |parts|)
    decreases |parts|
  {
    if parts != [] {
      DescendPath(node.obj.vals[parts[0]], parts[1..]);
    }
  }

  /** A walk that has followed a prefix continues from the node the prefix reaches. */
  lemma {:induction false} DescendPrefix(node: Json, parts: seq<string>, n: nat)
    requires n <= |parts| && Path(node, parts[..n]).Some?
    ensures Descend(node, parts) == Shifted(Descend(Path(node, parts[..n]).value, parts[n..]), n)
    decreases n
  {
    if n > 0 {
      assert parts[..n][0] == parts[0] && parts[..n][1..] == parts[1..][..n - 1];
      DescendPrefix(node.obj.vals[parts[0]], parts[1..], n - 1);
      assert parts[1..][n - 1..] == parts[n..];
    }
  }

  /** Every segment of the key exists: `get` resolves the nested value. */
  lemma ResolveNested(b: Object, parts: seq<string>)
    requires |parts| >= 1 && forall i :: 0 <= i < |parts| ==> '.' !in parts[i]
    requires Path(Obj(b), parts).Some?
    ensures Resolve(Some(b), Join(parts)) == Success(Path(Obj(b), parts))
  {
    SplitJoin(parts);
    DescendPath(Obj(b), parts);
  }

  /** The first segment is missing: `get` looks the whole key up as one flat property. */
  lemma ResolveFlat(b: Object, key: string)
    requires Split(key)[0] !in b.vals
    ensures Resolve(Some(b), key) == Success(Lookup(b, key))
  {
  }

  /**
   * A later segment is missing: `get` resolves the deepest node reached,
   * not the flat property.
   */
  lemma ResolveDeepest(b: Object, parts: seq<string>, n: nat)
    requires |parts| >= 1 && forall i :: 0 <= i < |parts| ==> '.' !in parts[i]
    requires 1 <= n < |parts| && Path(Obj(b), parts[..n]).Some?
    requires var v := Path(Obj(b), parts[..n]).value; v != Null && !(v.Obj? && parts[n] in v.obj.vals)
    ensures Resolve(Some(b), Join(parts)) == Success(Path(Obj(b), parts[..n]))
  {
    SplitJoin(parts);
    DescendPrefix(Obj(b), parts, n);
  }

  /** A `null` met with segments left makes `get` raise. */
  lemma ResolveThroughNull(b: Object, parts: seq<string>, n: nat)
    requires |parts| >= 1 && forall i :: 0 <= i < |parts| ==> '.' !in parts[i]
    requires n < |parts| && Path(Obj(b), parts[..n]) == Some(Null)
    ensures Resolve(Some(b), Join(parts)) == Failure(TypeError)
  {
    SplitJoin(parts);
    DescendPrefix(Obj(b), parts, n);
  }

  /** The ledger as a map, an absent one read as empty. */
  function Ledger(cache: Option<map<string, seq<string>>>): map<string, seq<string>> {
    if cache.Some? then cache.value else map[]
  }

  /** `keyCache || []`: the keys recorded for `url`, or none. */
  function Entry(ledger: map<string, seq<string>>, url: string): seq<string> {
    if url in ledger then ledger[url] else []
  }

  /** One emission per key. */
  function Emissions(ks: seq<string>): (e: seq<Option<string>>)
    ensures |e| == |ks| && forall i :: 0 <= i < |ks| ==> e[i] == Some(ks[i])
  {
    seq(|ks|, i requires 0 <= i < |ks| => Some(ks[i]))
  }

  class Locale {
    /** The locale set through `current`; `""` when none was set. */
    var locale: string
    /** The page-wide locale indicator (`document.body.lang`). */
    var docLang: string
    /** The provenance ledger; `None` before the first fetch and after a full dispose. */
    var cache: Option<map<string, seq<string>>>
    /** The active bundle; `None` while undefined or after a full dispose. */
    var resources: Option<Object>

    /**
     * The bundle is a well-formed object and can exist only beside a ledger
     * (every fetch creates the ledger first, and a full dispose clears both);
     * a ledger entry names each key once.
     */
    ghost predicate Valid()
      reads this
    {
      && (resources.Some? ==> WellFormed(resources.value) && cache.Some?)
      && (cache.Some? ==> forall u :: u in cache.value ==> Distinct(cache.value[u]))
    }

    constructor (docLang: string)
      ensures Valid()
      ensures locale == "" && this.docLang == docLang && cache == None && resources == None
    {
      locale := "";
      this.docLang := docLang;
      cache := None;
      resources := None;
    }

    /** The `current` getter: the stored locale, else the page's. */
    function Current(): (c: string)
      reads this
      ensures locale != "" ==> c == locale
      ensures locale == "" ==> c == docLang
    {
      if locale != "" then locale else docLang
    }

    /**
     * The `current` setter: an empty value or the stored one changes
     * nothing; any other value becomes both the stored and the page locale.
     */
    method SetCurrent(value: string)
      modifies this`locale, this`docLang
      ensures value != "" && value != old(locale) ==> locale == value && docLang == value
      ensures value == "" || value == old(locale) ==> locale == old(locale) && docLang == old(docLang)
      ensures value != "" ==> Current() == value
      ensures value == "" ==> Current() == old(Current())
    {
      if value != "" && locale != value {
        docLang := value;
        locale := value;
      }
    }

    /** `has(url)`: whether the ledger tracks `url`; raises when there is no ledger. */
    function Has(url: string): (r: Result<bool, Error>)
      reads this
      ensures r.Failure? <==> cache.None?
      ensures r.Failure? ==> r.error == TypeError
      ensures r.Success? ==> (r.value <==> url in cache.value)
    {
      match cache
      case None => Failure(TypeError)
      case Some(ledger) => Success(url in ledger)
    }

    /**
     * `get(key, ...args)`: walk the dot path, fall back as `Resolve` says,
     * interpolate, and echo the key when the value is falsy.
     */
    method Get(key: string, args: seq<Json>) returns (r: Result<Json, Error>)
      ensures r == GetSpec(resources, key, args)
      ensures r.Success? ==> Truthy(r.value) || r.value == Str(key)
      ensures resources.None? ==> r == Success(Str(key))
      ensures r.Failure? ==> r.error == TypeError
    {
      var parts := Split(key);
      var value: Option<Json>;
      if resources.None? {
        value := None;
      } else {
        var root := resources.value;
        var nested := Obj(root);
        var i := 0;
        while i < |parts|
          invariant 0 <= i <= |parts|
          invariant Descend(Obj(root), parts) == Shifted(Descend(nested, parts[i..]), i)
        {
          assert parts[i..][0] == parts[i] && parts[i..][1..] == parts[i + 1..];
          match nested
          case Null =>
            r := Failure(TypeError);
            return;
          case Obj(o) =>
            if parts[i] in o.vals {
              nested := o.vals[parts[i]];
              i := i + 1;
            } else {
              break;
            }
          case _ =>
            break;
        }
        value := if i == 0 then Lookup(root, key) else Some(nested);
      }
      if NullArgument(value, args) {
        r := Failure(TypeError);
      } else {
        r := Success(Finish(value, key, args));
      }
    }

    /**
     * `from(url)`: create the ledger if there is none, and give the URL with
     * its locale placeholders replaced by the current locale.
     */
    method From(url: string) returns (request: string)
      requires Valid()
      modifies this`cache
      ensures Valid()
      ensures cache == Some(Ledger(old(cache)))
      ensures request == Substitute(url, Current())
    {
      if cache.None? {
        cache := Some(map[]);
      }
      request := Substitute(url, Current());
    }

    /**
     * `origin(url)`: fetch, then make the fetched object the whole bundle and
     * record its keys as the ledger entry of `url`.
     */
    method Origin(url: string, response: Result<Object, string>) returns (request: string, outcome: Result<Object, Error>)
      requires Valid()
      requires response.Success? ==> WellFormed(response.value)
      modifies this`cache, this`resources
      ensures Valid()
      ensures request == Substitute(url, Current())
      ensures response.Failure? ==>
        && outcome == Failure(FetchError(response.error))
        && cache == Some(Ledger(old(cache))) && resources == old(resources)
      ensures response.Success? ==>
        && outcome == Success(response.value)
        && resources == Some(response.value)
        && cache == Some(Ledger(old(cache))[url := response.value.keys])
        && Has(url) == Success(true)
    {
      request := From(url);
      match response
      case Failure(reason) =>
        outcome := Failure(FetchError(reason));
      case Success(fetched) =>
        cache := Some(cache.value[url := fetched.keys]);
        resources := Some(fetched);
        outcome := Success(fetched);
    }

    /**
     * `merge(url)`: fetch, record the fetched keys as the ledger entry of
     * `url`, then `Object.assign` them into the bundle. With no bundle the
     * assignment raises after the ledger entry is written.
     */
    method Merge(url: string, response: Result<Object, string>) returns (request: string, outcome: Result<Object, Error>)
      requires Valid()
      requires response.Success? ==> WellFormed(response.value)
      modifies this`cache, this`resources
      ensures Valid()
      ensures request == Substitute(url, Current())
      ensures response.Failure? ==>
        && outcome == Failure(FetchError(response.error))
        && cache == Some(Ledger(old(cache))) && resources == old(resources)
      ensures response.Success? ==>
        && cache == Some(Ledger(old(cache))[url := response.value.keys])
        && Has(url) == Success(true)
      ensures response.Success? && old(resources).None? ==>
        outcome == Failure(TypeError) && resources == None
      ensures response.Success? && old(resources).Some? ==>
        var fetched, before := response.value, old(resources).value;
        && outcome == Success(fetched)
        && resources == Some(Assign(before, fetched))
        && resources.value.vals.Keys == before.vals.Keys + fetched.vals.Keys
        && (forall k :: k in fetched.vals ==> resources.value.vals[k] == fetched.vals[k])
        && (forall k :: k in before.vals && k !in fetched.vals ==> resources.value.vals[k] == before.vals[k])
    {
      request := From(url);
      match response
      case Failure(reason) =>
        outcome := Failure(FetchError(reason));
      case Success(fetched) =>
        cache := Some(cache.value[url := fetched.keys]);
        if resources.None? {
          outcome := Failure(TypeError);
        } else {
          AssignSpec(resources.value, fetched);
          resources := Some(Assign(resources.value, fetched));
          outcome := Success(fetched);
        }
    }

    /**
     * `dispose(url)`. With a URL and a bundle: drop the ledger entry, then
     * delete and emit each of its keys the bundle still holds. Otherwise:
     * clear ledger and bundle and emit once with no value.
     */
    method Dispose(url: Option<string>) returns (emitted: seq<Option<string>>)
      requires Valid()
      modifies this`cache, this`resources
      ensures Valid()
      ensures url.Some? && url.value != "" && old(resources).Some? ==>
        var entry := Entry(old(cache).value, url.value);
        var before := old(resources).value;
        var w := SweepKeys(before, entry);
        && resources == Some(w.rest)
        && cache == Some(old(cache).value - {url.value})
        && emitted == Emissions(Among(entry, before.vals.Keys))
        && resources.value.vals == before.vals - Elems(entry)
        && resources.value.keys == NotAmong(before.keys, Elems(entry))
        && Has(url.value) == Success(false)
      ensures !(url.Some? && url.value != "" && old(resources).Some?) ==>
        cache == None && resources == None && emitted == [None]
    {
      if url.Some? && url.value != "" && resources.Some? {
        var ledger := cache.value;
        var entry := Entry(ledger, url.value);
        cache := Some(ledger - {url.value});
        ghost var before := resources.value;
        var removed: seq<string> := [];
        var i := 0;
        while i < |entry|
          invariant 0 <= i <= |entry|
          invariant cache == Some(ledger - {url.value})
          invariant resources == Some(SweepKeys(before, entry[..i]).rest)
          invariant removed == SweepKeys(before, entry[..i]).emitted
        {
          var key := entry[i];
          SweepKeysNext(before, entry, i);
          var bundle := resources.value;
          if key in bundle.vals {
            resources := Some(Remove(bundle, key));
            removed := removed + [key];
          }
          i := i + 1;
        }
        assert entry[..i] == entry;
        SweepRemoves(before, entry);
        SweepKeepsOrder(before, entry);
        emitted := Emissions(removed);
      } else {
        cache := None;
        resources := None;
        emitted := [None];
      }
    }

    /**
     * `exclude(url)`: drop the ledger entry, then move each of its keys the
     * bundle still holds into a fresh fragment, and give the fragment.
     * Raises when there is no ledger, or when the entry names keys but there
     * is no bundle.
     */
    method Exclude(url: string) returns (r: Result<Object, Error>)
      requires Valid()
      modifies this`cache, this`resources
      ensures Valid()
      ensures old(cache).None? ==> r == Failure(TypeError) && cache == None && resources == old(resources)
      ensures old(cache).Some? ==> cache == Some(old(cache).value - {url}) && Has(url) == Success(false)
      ensures old(cache).Some? && old(resources).None? ==>
        && resources == None
        && r == if Entry(old(cache).value, url) == [] then Success(Empty) else Failure(TypeError)
      ensures old(resources).Some? ==>
        var entry := Entry(old(cache).value, url);
        var before := old(resources).value;
        var w := SweepKeys(before, entry);
        && r == Success(w.taken) && resources == Some(w.rest)
        && r.value.keys == Among(entry, before.vals.Keys)
        && r.value.vals.Keys == before.vals.Keys * Elems(entry)
        && (forall k :: k in r.value.vals ==> r.value.vals[k] == before.vals[k])
        && resources.value.vals == before.vals - Elems(entry)
        && resources.value.keys == NotAmong(before.keys, Elems(entry))
    {
      if cache.None? {
        r := Failure(TypeError);
        return;
      }
      var ledger := cache.value;
      var entry := Entry(ledger, url);
      cache := Some(ledger - {url});
      if resources.None? {
        // The first key of a non-empty entry reads a property of the missing bundle.
        r := if entry == [] then Success(Empty) else Failure(TypeError);
        return;
      }
      ghost var before := resources.value;
      var exclusion := ExcludeKeys(entry);
      SweepSpec(before, entry);
      r := Success(exclusion);
    }

    /**
     * The loop of `exclude`: move each listed key the bundle still holds into
     * a fresh fragment, deleting it from the bundle.
     */
    method ExcludeKeys(entry: seq<string>) returns (exclusion: Object)
      requires resources.Some?
      modifies this`resources
      ensures var w := SweepKeys(old(resources).value, entry);
        resources == Some(w.rest) && exclusion == w.taken
    {
      ghost var before := resources.value;
      exclusion := Empty;
      var i := 0;
      while i < |entry|
        invariant 0 <= i <= |entry|
        invariant resources == Some(SweepKeys(before, entry[..i]).rest)
        invariant exclusion == SweepKeys(before, entry[..i]).taken
      {
        var key := entry[i];
        SweepKeysNext(before, entry, i);
        var bundle := resources.value;
        if key in bundle.vals {
          exclusion := Put(exclusion, key, bundle.vals[key]);
          resources := Some(Remove(bundle, key));
        }
        i := i + 1;
      }
      assert entry[..i] == entry;
    }
  }

  /** The greeting bundle of the sessions below. */
  function Greeting(): Object {
    Object(["greeting"], map["greeting" := Str("hi {0}")])
  }

  /** The greeting's key is a flat property of the bundle. */
  lemma GreetingResolves()
    ensures Resolve(Some(Greeting()), "greeting") == Success(Some(Str("hi {0}")))
  {
    SplitPlain("greeting");
  }

  /** The greeting's text with the argument "Sam". */
  lemma GreetingReads()
    ensures Interpolate("hi {0}", [Str("Sam")]) == "hi Sam"
  {
    InterpolateExample("Sam");
    HiSam();
  }

  lemma HiSam()
    ensures "hi " + "Sam" == "hi Sam"
  {
  }

  /** Sweeping a one-property bundle by its own key emits that key. */
  lemma SingleEmits(k: string, v: Json)
    ensures Emissions(Among([k], map[k := v].Keys)) == [Some(k)]
  {
    var S := map[k := v].Keys;
    assert Among([k], S) == [k] by {
      assert [k][..0] == [] && k in S;
    }
    assert Emissions([k]) == [Some(k)] by {
      var e := Emissions([k]);
      assert |e| == 1 && e[0] == Some(k);
    }
  }

  /** Sweeping a one-property bundle by its own key leaves no property. */
  lemma SingleEmptied(k: string, v: Json)
    ensures map[k := v] - Elems([k]) == map[]
  {
    assert k in Elems([k]);
  }

  /**
   * A session, first step: install an empty bundle from "base.json", then
   * merge the greeting from "a.json" into it.
   */
  method SessionMerge() returns (store: Locale)
    ensures fresh(store) && store.Valid() && store.resources == Some(Greeting())
    ensures store.cache.Some? && Entry(store.cache.value, "a.json") == Greeting().keys
  {
    store := new Locale("en");
    assert WellFormed(Greeting());
    var _, installed := store.Origin("base.json", Success(Empty));
    var _, merged := store.Merge("a.json", Success(Greeting()));
    assert merged == Success(Greeting());
    AssignIntoEmpty(Greeting());
  }

  /** Second step: read the greeting with one positional argument. */
  method SessionGreet(store: Locale) returns (hello: Result<Json, Error>)
    requires store.resources == Some(Greeting())
    ensures hello == Success(Str("hi Sam"))
  {
    hello := store.Get("greeting", [Str("Sam")]);
    GreetingResolves();
    GreetingReads();
  }

  /** Third step: dispose of "a.json"; the one key it contributed is emitted and gone. */
  method SessionDispose(store: Locale) returns (emitted: seq<Option<string>>)
    requires store.Valid() && store.resources == Some(Greeting())
    requires store.cache.Some? && Entry(store.cache.value, "a.json") == Greeting().keys
    modifies store
    ensures emitted == [Some("greeting")]
    ensures store.resources.Some? && store.resources.value.vals == map[]
  {
    SingleEmits("greeting", Str("hi {0}"));
    SingleEmptied("greeting", Str("hi {0}"));
    emitted := store.Dispose(Some("a.json"));
  }

  /** Last step: with the key gone, `get` echoes it. */
  method SessionEcho(store: Locale) returns (again: Result<Json, Error>)
    requires store.resources.Some? && store.resources.value.vals == map[]
    ensures again == Success(Str("greeting"))
  {
    again := store.Get("greeting", []);
    SplitPlain("greeting");
  }

  /** The whole session. */
  method Session() {
    var store := SessionMerge();
    var hello := SessionGreet(store);
    var emitted := SessionDispose(store);
    var again := SessionEcho(store);
  }
}
