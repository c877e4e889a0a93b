/**
 * Dict extensions: `LazyDict`, whose defaults are computed only when a key
 * has no value; `Promptionary`, whose defaults come from prompting the
 * user; and `LazyDotDict`, which converts nested dicts and looks values up
 * along dotted paths.
 */
module CustomDicts {
  import opened Wrappers
  import opened Text
  import SeqTools

  // ---------------------------------------------------------------------
  // LazyDict
  // ---------------------------------------------------------------------

  /**
   * A `LazyDict`: a dict whose stored values may be Python's `None`
   * (`Option.None` here). A getter is a partial function: it only has to
   * work when it is called, that is when the key has no value.
   */
  class LazyDict<K(==), V> {
    var data: map<K, Option<V>>

    constructor (m: map<K, Option<V>>)
      ensures data == m
    {
      data := m;
    }

    /** `self.get(key) is not None`: the key is there with a value other than `None`. */
    predicate HasValue(key: K)
      reads this
    {
      key in data && data[key].Some?
    }

    /**
     * `lazyget`: the stored value when there is one; otherwise whatever the
     * getter returns. The dict is not changed.
     */
    function LazyGet(key: K, getIfAbsent: () --> Option<V>): (r: Option<V>)
      reads this
      requires HasValue(key) || getIfAbsent.requires()
      ensures HasValue(key) ==> r == data[key] && r.Some?
      ensures !HasValue(key) ==> r == getIfAbsent()
    {
      if HasValue(key) then data[key] else getIfAbsent()
    }

    /**
     * `lazysetdefault`: when the key has no value, the getter's result is
     * stored under it; the result is what is then stored, which is what
     * `lazyget` would have returned. No other key changes.
     */
    method LazySetDefault(key: K, getIfAbsent: () --> Option<V>) returns (r: Option<V>)
      requires HasValue(key) || getIfAbsent.requires()
      modifies this
      ensures r == old(LazyGet(key, getIfAbsent))
      ensures data == old(data)[key := r]
      ensures old(HasValue(key)) ==> data == old(data)
    {
      if !HasValue(key) {
        data := data[key := getIfAbsent()];
      }
      r := data[key];
    }
  }

  /** When the key has a value, the getter plays no part: any two getters give the same result. */
  lemma LazyGetIgnoresGetter<K, V>(d: LazyDict<K, V>, key: K, g1: () --> Option<V>, g2: () --> Option<V>)
    requires d.HasValue(key)
    ensures d.LazyGet(key, g1) == d.LazyGet(key, g2)
  {
  }

  // ---------------------------------------------------------------------
  // Promptionary
  // ---------------------------------------------------------------------

  /**
   * A `Promptionary`: a `LazyDict` from names to values whose getters
   * prompt the user. The prompting function (`input`, `getpass`) is a
   * parameter; what the user types is its result.
   */
  class Promptionary<V> {
    const dict: LazyDict<string, V>
    var debugging: bool

    constructor (m: map<string, Option<V>>, debugging: bool)
      ensures fresh(dict) && dict.data == m && this.debugging == debugging
    {
      dict := new LazyDict(m);
      this.debugging := debugging;
    }

    /** `get_or_prompt_for`: `lazyget` with a getter that calls the prompt function on the prompt. */
    function GetOrPromptFor(key: string, promptFn: string --> Option<V>, prompt: string): (r: Option<V>)
      reads this, dict
      requires dict.HasValue(key) || promptFn.requires(prompt)
      ensures dict.HasValue(key) ==> r == dict.data[key]
      ensures !dict.HasValue(key) ==> r == promptFn(prompt)
    {
      dict.LazyGet(key, () requires promptFn.requires(prompt) => promptFn(prompt))
    }

    /** `setdefault_or_prompt_for`: `lazysetdefault` with the same getter; the answer is stored. */
    method SetDefaultOrPromptFor(key: string, promptFn: string --> Option<V>, prompt: string) returns (r: Option<V>)
      requires dict.HasValue(key) || promptFn.requires(prompt)
      modifies dict
      ensures r == old(GetOrPromptFor(key, promptFn, prompt))
      ensures dict.data == old(dict.data)[key := r]
    {
      r := dict.LazySetDefault(key, () requires promptFn.requires(prompt) => promptFn(prompt));
    }
  }

  // ---------------------------------------------------------------------
  // LazyDotDict
  // ---------------------------------------------------------------------

  /**
   * The values a `LazyDotDict` holds, as far as `lookup` and
   * `autodotdictify` tell them apart: plain dicts, `LazyDotDict`s (which
   * are `UserDict`s, not dicts), lists, and everything else.
   */
  datatype Value =
    | Scalar(text: string)
    | List(items: seq<Value>)
    | Dict(entries: map<string, Value>)
    | DotDict(entries: map<string, Value>)

  /** `LazyDotDict(v)` applied to a dict value: its nested dicts are converted too; other values stay. */
  function Dotify(v: Value): (w: Value)
    ensures !v.Dict? ==> w == v
    ensures v.Dict? ==> w.DotDict? && w.entries.Keys == v.entries.Keys
  {
    match v
    case Dict(m) => DotDict(map k | k in m :: Dotify(m[k]))
    case _ => v
  }

  /** The entries after `autodotdictify`: every dict value converted, every other value unchanged. */
  function DotifyEntries(m: map<string, Value>): (r: map<string, Value>)
    ensures r.Keys == m.Keys
    ensures forall k :: k in m && !m[k].Dict? ==> r[k] == m[k]
    ensures forall k :: k in m && m[k].Dict? ==> r[k].DotDict? && r[k].entries.Keys == m[k].entries.Keys
  {
    map k | k in m :: Dotify(m[k])
  }

  /** No plain dict can be reached through the mappings of `v`. */
  predicate NoPlainDict(v: Value) {
    match v
    case Dict(_) => false
    case DotDict(m) => forall k :: k in m ==> NoPlainDict(m[k])
    case _ => true
  }

  /** Every `LazyDotDict` reachable through the mappings of `v` already holds no plain dict, as its constructor ensures. */
  predicate DotDictsConverted(v: Value) {
    match v
    case Dict(m) => forall k :: k in m ==> DotDictsConverted(m[k])
    case DotDict(_) => NoPlainDict(v)
    case _ => true
  }

  /** After conversion, every dict reachable by key is a `LazyDotDict`. */
  lemma {:induction false} DotifyLeavesNoPlainDict(v: Value)
    requires DotDictsConverted(v)
    ensures NoPlainDict(Dotify(v))
  {
    if v.Dict? {
      forall k | k in v.entries ensures NoPlainDict(Dotify(v.entries[k])) {
        DotifyLeavesNoPlainDict(v.entries[k]);
      }
    }
  }

  /** A `LazyDotDict` built from entries whose own `LazyDotDict`s are converted holds no plain dict anywhere. */
  lemma ConstructedHasNoPlainDict(m: map<string, Value>)
    requires forall k :: k in m ==> DotDictsConverted(m[k])
    ensures NoPlainDict(DotDict(DotifyEntries(m)))
  {
    forall k | k in m ensures NoPlainDict(DotifyEntries(m)[k]) {
      DotifyLeavesNoPlainDict(m[k]);
    }
  }

  /** Python's `int(s)` on text: surrounding whitespace, an optional sign, then ASCII digits. */
  function PyInt(s: string): (r: Option<int>)
  {
    var t := Strip(s);
    if |t| > 0 && (t[0] == '-' || t[0] == '+') then
      var d := t[1..];
      if |d| > 0 && AllDigits(d) then
        var n: int := DecimalValue(d);
        Some(if t[0] == '-' then -n else n)
      else None
    else if |t| > 0 && AllDigits(t) then Some(DecimalValue(t))
    else None
  }

  predicate AllDigits(s: string) {
    forall i :: 0 <= i < |s| ==> IsDigit(s[i])
  }

  function DecimalValue(s: string): nat
    requires AllDigits(s)
  {
    if |s| == 0 then 0 else DecimalValue(s[..|s| - 1]) * 10 + (s[|s| - 1] as int - '0' as int)
  }

  /**
   * One step of `lookup`: a dict is indexed by the key, a list by
   * `int(key)`, anything else raises `KeyError`. Whether a `LazyDotDict`
   * counts as a dict is the parameter `dotDictIsDict`.
   */
  function Step(v: Value, key: string, dotDictIsDict: bool): (r: Result<Value>)
    ensures (v.Scalar? || (v.DotDict? && !dotDictIsDict)) ==> r == Err(KeyError)
    ensures (v.Dict? || (v.DotDict? && dotDictIsDict)) ==>
      r == if key in v.entries then Ok(v.entries[key]) else Err(KeyError)
    ensures v.List? && PyInt(key).None? ==> r == Err(ValueError)
    ensures v.List? && PyInt(key).Some? ==>
      match SeqTools.PyIndex(|v.items|, PyInt(key).value)
      case Some(j) => r == Ok(v.items[j])
      case None => r == Err(IndexError)
  {
    if v.Dict? || (v.DotDict? && dotDictIsDict) then
      if key in v.entries then Ok(v.entries[key]) else Err(KeyError)
    else if v.List? then
      match PyInt(key)
      case None => Err(ValueError)
      case Some(i) =>
        match SeqTools.PyIndex(|v.items|, i)
        case Some(j) => Ok(v.items[j])
        case None => Err(IndexError)
    else Err(KeyError)
  }

  /** The value at the end of `path`, taking one step per segment, or the first error. */
  function Walk(v: Value, path: seq<string>, dotDictIsDict: bool): Result<Value>
    decreases |path|
  {
    if |path| == 0 then Ok(v)
    else
      match Step(v, path[0], dotDictIsDict)
      case Err(e) => Err(e)
      case Ok(w) => Walk(w, path[1..], dotDictIsDict)
  }

  /** Walking a path in two pieces is walking the first, then the second from where it ended. */
  lemma {:induction false} WalkAppend(v: Value, p: seq<string>, q: seq<string>, dotDictIsDict: bool)
    ensures Walk(v, p + q, dotDictIsDict) ==
      match Walk(v, p, dotDictIsDict)
      case Err(e) => Err(e)
      case Ok(w) => Walk(w, q, dotDictIsDict)
    decreases |p|
  {
    if |p| == 0 {
      assert p + q == q;
    } else {
      assert (p + q)[0] == p[0] && (p + q)[1..] == p[1..] + q;
      if Step(v, p[0], dotDictIsDict).Ok? {
        WalkAppend(Step(v, p[0], dotDictIsDict).value, p[1..], q, dotDictIsDict);
      }
    }
  }

  /** One step of a walk: the first segment, then the rest from where it led. */
  lemma WalkCons(v: Value, key: string, rest: seq<string>, dotDictIsDict: bool)
    ensures Step(v, key, dotDictIsDict).Err? ==> Walk(v, [key] + rest, dotDictIsDict) == Step(v, key, dotDictIsDict)
    ensures Step(v, key, dotDictIsDict).Ok? ==>
      Walk(v, [key] + rest, dotDictIsDict) == Walk(Step(v, key, dotDictIsDict).value, rest, dotDictIsDict)
  {
    assert ([key] + rest)[0] == key && ([key] + rest)[1..] == rest;
  }

  /** A `LazyDotDict`: a `LazyDict` of `Value`s that converts nested dicts on construction. */
  class LazyDotDict {
    var data: map<string, Value>

    /** `LazyDotDict(m)`: store the entries, then `autodotdictify`. */
    constructor (m: map<string, Value>)
      ensures data == DotifyEntries(m)
    {
      data := m;
      new;
      Autodotdictify();
    }

    /** `autodotdictify`: each dict-valued entry is replaced by a converted copy, in place. */
    method Autodotdictify()
      modifies this
      ensures data == DotifyEntries(old(data))
    {
      ghost var start := data;
      var todo := data.Keys;
      while todo != {}
        invariant todo <= start.Keys && data.Keys == start.Keys
        invariant forall k :: k in start ==> data[k] == if k in todo then start[k] else Dotify(start[k])
        decreases todo
      {
        var k :| k in todo;
        if data[k].Dict? {
          data := data[k := DotDict(DotifyEntries(data[k].entries))];
        }
        todo := todo - {k};
      }
      assert data == DotifyEntries(start);
    }

    /**
     * `lookup`, as written: the path is the key split at ".", walked from
     * `self`, and a step only indexes a value that `isinstance(v, dict)`
     * accepts; `self` is a `UserDict`, so the first step raises `KeyError`.
     */
    method Lookup(dotkey: string) returns (r: Result<Value>)
      ensures r == Walk(DotDict(data), Split(dotkey, "."), false)
    {
      r := WalkPath(DotDict(data), dotkey, false);
    }

    /** `lookup` with a `LazyDotDict` indexed by key like a dict: the evident intent. */
    method LookupPath(dotkey: string) returns (r: Result<Value>)
      ensures r == Walk(DotDict(data), Split(dotkey, "."), true)
    {
      r := WalkPath(DotDict(data), dotkey, true);
    }
  }

  /** The loop of `lookup`: the reversed segments are popped from the end, one step each. */
  method WalkPath(root: Value, dotkey: string, dotDictIsDict: bool) returns (r: Result<Value>)
    ensures r == Walk(root, Split(dotkey, "."), dotDictIsDict)
  {
    var path := Reversed(Split(dotkey, "."));
    ReversedTwice(Split(dotkey, "."));
    var v := root;
    while |path| > 0
      invariant Walk(v, Reversed(path), dotDictIsDict) == Walk(root, Split(dotkey, "."), dotDictIsDict)
      decreases |path|
    {
      var key := path[|path| - 1];
      WalkCons(v, key, Reversed(path[..|path| - 1]), dotDictIsDict);
      path := path[..|path| - 1];
      match Step(v, key, dotDictIsDict)
      case Err(e) =>
        return Err(e);
      case Ok(w) =>
        v := w;
    }
    r := Ok(v);
  }

  /** As written, every lookup raises `KeyError`: the walk starts at a `LazyDotDict`. */
  lemma LookupAlwaysFails(data: map<string, Value>, dotkey: string)
    ensures Walk(DotDict(data), Split(dotkey, "."), false) == Err(KeyError)
  {
  }

  /** The smallest witness: `LazyDotDict({"a": "1"}).lookup("a")` raises although "a" is a key. */
  lemma LookupOfTopKeyFails()
    ensures Walk(DotDict(map["a" := Scalar("1")]), Split("a", "."), false) == Err(KeyError)
    ensures Walk(DotDict(map["a" := Scalar("1")]), Split("a", "."), true) == Ok(Scalar("1"))
  {
    SplitSepAbsent("a", ".");
  }

  /** With the intended test, a key without dots looks up the entry itself. */
  lemma LookupPathOneKey(data: map<string, Value>, key: string)
    requires '.' !in key
    ensures Walk(DotDict(data), Split(key, "."), true) ==
      if key in data then Ok(data[key]) else Err(KeyError)
  {
    SplitSepAbsent(key, ".");
  }

  /** With the intended test, `a.rest` looks up `a` and then `rest` inside what it found. */
  lemma LookupPathDotted(data: map<string, Value>, a: string, rest: string)
    requires '.' !in a
    ensures Walk(DotDict(data), Split(a + "." + rest, "."), true) ==
      if a in data then Walk(data[a], Split(rest, "."), true) else Err(KeyError)
  {
    SplitSepCons(a, ".", rest);
    assert Split(a + "." + rest, ".") == [a] + Split(rest, ".");
  }
}
