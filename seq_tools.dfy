/**
 * Sequence and mapping helpers: the prefix test, the letters-only filter,
 * the sorted list of public names, list stringification, `default_pop`,
 * `setdefaults_of`, and the `Peeler` that flattens nested containers.
 */
module SeqTools {
  import opened Wrappers
  import opened Text

  // ---------------------------------------------------------------------
  // seq_startswith
  // ---------------------------------------------------------------------

  /** `seq_startswith`: the length test, then the slice comparison; this is Dafny's prefix relation. */
  function SeqStartsWith<T(==)>(s: seq<T>, prefix: seq<T>): (b: bool)
    ensures b <==> prefix <= s
  {
    |s| >= |prefix| && s[..|prefix|] == prefix
  }

  /** A sequence starts with anything that it was built from by appending. */
  lemma SeqStartsWithAppend<T>(prefix: seq<T>, rest: seq<T>)
    ensures SeqStartsWith(prefix + rest, prefix)
  {
    assert (prefix + rest)[..|prefix|] == prefix;
  }

  // ---------------------------------------------------------------------
  // extract_letters_from
  // ---------------------------------------------------------------------

  /** `re.sub(r'[^a-zA-Z]', '', s)`: every character that is not an ASCII letter is removed. */
  function ExtractLetters(s: string): (r: string)
    ensures |r| <= |s|
    ensures forall i :: 0 <= i < |r| ==> IsAsciiLetter(r[i])
  {
    if |s| == 0 then ""
    else (if IsAsciiLetter(s[0]) then [s[0]] else "") + ExtractLetters(s[1..])
  }

  /** Filtering distributes over concatenation, so the letters keep their original order. */
  lemma {:induction false} ExtractLettersAppend(a: string, b: string)
    ensures ExtractLetters(a + b) == ExtractLetters(a) + ExtractLetters(b)
  {
    if |a| > 0 {
      assert (a + b)[0] == a[0] && (a + b)[1..] == a[1..] + b;
      ExtractLettersAppend(a[1..], b);
      var h := if IsAsciiLetter(a[0]) then [a[0]] else "";
      assert ExtractLetters(a + b) == h + (ExtractLetters(a[1..]) + ExtractLetters(b));
    } else {
      assert a + b == b;
    }
  }

  /** Each ASCII letter occurs as often in the result as in the input; nothing else occurs. */
  lemma {:induction false} ExtractLettersCounts(s: string, c: char)
    ensures multiset(ExtractLetters(s))[c] == if IsAsciiLetter(c) then multiset(s)[c] else 0
  {
    if |s| > 0 {
      ExtractLettersCounts(s[1..], c);
      assert s == [s[0]] + s[1..];
    }
  }

  /** A string of letters only comes back unchanged, so filtering twice is filtering once. */
  lemma {:induction false} ExtractLettersOfLetters(s: string)
    requires forall i :: 0 <= i < |s| ==> IsAsciiLetter(s[i])
    ensures ExtractLetters(s) == s
  {
    if |s| > 0 {
      ExtractLettersOfLetters(s[1..]);
    }
  }

  // ---------------------------------------------------------------------
  // uniqs_in
  // ---------------------------------------------------------------------

  /** Python's `<` on strings: lexicographic by code point, a proper prefix being smaller. */
  predicate StrLess(a: string, b: string)
    decreases |a|
  {
    if |a| == 0 then |b| > 0
    else if |b| == 0 then false
    else if a[0] == b[0] then StrLess(a[1..], b[1..])
    else a[0] < b[0]
  }

  lemma {:induction false} StrLessIrreflexive(a: string)
    ensures !StrLess(a, a)
  {
    if |a| > 0 {
      StrLessIrreflexive(a[1..]);
    }
  }

  lemma {:induction false} StrLessTransitive(a: string, b: string, c: string)
    requires StrLess(a, b) && StrLess(b, c)
    ensures StrLess(a, c)
    decreases |a|
  {
    if |a| > 0 && |b| > 0 && |c| > 0 && a[0] == b[0] && b[0] == c[0] {
      StrLessTransitive(a[1..], b[1..], c[1..]);
    }
  }

  /** Any two different strings are ordered one way or the other. */
  lemma {:induction false} StrLessTotal(a: string, b: string)
    ensures a == b || StrLess(a, b) || StrLess(b, a)
    decreases |a|
  {
    if |a| > 0 && |b| > 0 && a[0] == b[0] {
      StrLessTotal(a[1..], b[1..]);
      if a[1..] == b[1..] {
        assert a == [a[0]] + a[1..] && b == [b[0]] + b[1..];
      }
    }
  }

  /** Sorted by `<` with no repeats: what `sort` makes of the elements of a set. */
  predicate StrictlySorted(xs: seq<string>) {
    forall i, j :: 0 <= i < j < |xs| ==> StrLess(xs[i], xs[j])
  }

  lemma {:induction false} StrLessAsymmetric(a: string, b: string)
    ensures StrLess(a, b) ==> !StrLess(b, a)
    decreases |a|
  {
    if |a| > 0 && |b| > 0 && a[0] == b[0] {
      StrLessAsymmetric(a[1..], b[1..]);
    }
  }

  /** The first element of a strictly sorted list is its least. */
  lemma FirstIsLeast(xs: seq<string>, v: string)
    requires StrictlySorted(xs) && v in xs
    ensures v == xs[0] || StrLess(xs[0], v)
  {
  }

  /** A strictly sorted list holds no element twice. */
  lemma NoDuplicates(xs: seq<string>, i: int, j: int)
    requires StrictlySorted(xs) && 0 <= i < j < |xs|
    ensures xs[i] != xs[j]
  {
    StrLessIrreflexive(xs[i]);
  }

  /** The element `x` put into its place in a sorted list, unless it is already there. */
  function Insert(xs: seq<string>, x: string): (r: seq<string>)
    requires StrictlySorted(xs)
    ensures StrictlySorted(r)
    ensures forall v :: v in r <==> v in xs || v == x
  {
    if |xs| == 0 then [x]
    else if xs[0] == x then xs
    else if StrLess(x, xs[0]) then
      assert forall j :: 0 < j < |xs| ==> StrLess(x, xs[j]) by {
        forall j | 0 < j < |xs| ensures StrLess(x, xs[j]) {
          StrLessTransitive(x, xs[0], xs[j]);
        }
      }
      [x] + xs
    else
      var rest := Insert(xs[1..], x);
      StrLessTotal(x, xs[0]);
      assert forall j :: 0 <= j < |rest| ==> StrLess(xs[0], rest[j]) by {
        forall j | 0 <= j < |rest| ensures StrLess(xs[0], rest[j]) {
          if rest[j] != x {
            assert rest[j] in xs[1..];
            var k :| 1 <= k < |xs| && xs[k] == rest[j];
          }
        }
      }
      [xs[0]] + rest
  }

  /** Names that Python treats as private: those that start with an underscore. */
  predicate IsPrivate(v: string) {
    SeqStartsWith(v, "_")
  }

  /** `uniqs_in`: the distinct names in `xs` that do not start with "_", sorted. */
  function UniqsIn(xs: seq<string>): (r: seq<string>)
    ensures StrictlySorted(r)
    ensures forall v :: v in r <==> v in xs && !IsPrivate(v)
  {
    if |xs| == 0 then []
    else
      var rest := UniqsIn(xs[..|xs| - 1]);
      var v := xs[|xs| - 1];
      assert xs == xs[..|xs| - 1] + [v];
      if IsPrivate(v) then rest else Insert(rest, v)
  }

  /**
   * There is only one strictly sorted list with a given set of elements, so
   * the result does not depend on the order in which the set is walked.
   */
  lemma {:induction false} SortedListIsUnique(a: seq<string>, b: seq<string>)
    requires StrictlySorted(a) && StrictlySorted(b)
    requires forall v :: v in a <==> v in b
    ensures a == b
    decreases |a|
  {
    if |a| > 0 {
      assert a[0] in b;
    }
    if |b| > 0 {
      assert b[0] in a;
    }
    if |a| > 0 && |b| > 0 {
      FirstIsLeast(a, b[0]);
      FirstIsLeast(b, a[0]);
      StrLessAsymmetric(a[0], b[0]);
      forall v ensures v in a[1..] <==> v in b[1..] {
        if v in a[1..] {
          var k :| 1 <= k < |a| && a[k] == v;
          NoDuplicates(a, 0, k);
          assert v in b;
        }
        if v in b[1..] {
          var k :| 1 <= k < |b| && b[k] == v;
          NoDuplicates(b, 0, k);
          assert v in a;
        }
      }
      SortedListIsUnique(a[1..], b[1..]);
      assert a == [a[0]] + a[1..] && b == [b[0]] + b[1..];
    }
  }

  // ---------------------------------------------------------------------
  // stringify_list
  // ---------------------------------------------------------------------

  /** The argument of `stringify_list`: a Python list, or any other object. */
  datatype ListArg<T> = PyList(items: seq<T>) | NotAList

  /** Each element shown as a string, in order. */
  function ShowAll<T>(items: seq<T>, show: T -> string): (shown: seq<string>)
    ensures |shown| == |items|
    ensures forall i :: 0 <= i < |items| ==> shown[i] == show(items[i])
  {
    seq(|items|, i requires 0 <= i < |items| => show(items[i]))
  }

  const QUOTE_SEP := "', '"

  /**
   * `stringify_list`: "" for an empty list or a non-list, the lone element
   * as it is for a list of one, and otherwise every element single-quoted,
   * separated by ", ".
   */
  function StringifyList<T>(a: ListArg<T>, show: T -> string): (r: string)
    ensures (a.NotAList? || |a.items| == 0) ==> r == ""
    ensures a.PyList? && |a.items| == 1 ==> r == show(a.items[0])
    ensures a.PyList? && |a.items| > 1 ==> |r| >= 2 && r[0] == '\'' && r[|r| - 1] == '\''
  {
    if a.NotAList? || |a.items| == 0 then ""
    else
      var shown := ShowAll(a.items, show);
      if |a.items| > 1 then "'" + Join(shown, QUOTE_SEP) + "'" else shown[0]
  }

  /** Without quotes inside the elements, the quoted form splits back into the elements. */
  lemma StringifyListRoundTrip<T>(items: seq<T>, show: T -> string)
    requires |items| > 1
    requires forall i :: 0 <= i < |items| ==> '\'' !in show(items[i])
    ensures var r := StringifyList(PyList(items), show);
      Split(r[1..|r| - 1], QUOTE_SEP) == ShowAll(items, show)
  {
    var shown := ShowAll(items, show);
    var r := StringifyList(PyList(items), show);
    assert r[1..|r| - 1] == Join(shown, QUOTE_SEP);
    SplitJoin(shown, QUOTE_SEP);
  }

  // ---------------------------------------------------------------------
  // default_pop
  // ---------------------------------------------------------------------

  /** A Python list, updated in place by `pop`. */
  class PyList<T> {
    var items: seq<T>

    constructor (xs: seq<T>)
      ensures items == xs
    {
      items := xs;
    }
  }

  /** A Python dict, updated in place by `pop` and `setdefault`. */
  class PyDict<K(==, !new), V> {
    var data: map<K, V>

    constructor (m: map<K, V>)
      ensures data == m
    {
      data := m;
    }
  }

  /** Python's index normalisation: `i` or `i + n` when it lands inside a list of length `n`, else nothing. */
  function PyIndex(n: nat, i: int): (j: Option<nat>)
    ensures j.Some? <==> -(n as int) <= i < n
    ensures j.Some? ==> j.value < n && (j.value == i || j.value == i + n)
  {
    if 0 <= i < n then Some(i) else if -(n as int) <= i < 0 then Some(i + n) else None
  }

  /**
   * `default_pop` on a list: `pop()` takes the last element, `pop(i)` the
   * element at `i`; an `IndexError` (empty list, index out of range) gives
   * `default` and leaves the list as it was.
   */
  function ListPop<T>(items: seq<T>, key: Option<int>, default: T): (res: (T, seq<T>))
    ensures var i := if key.Some? then key.value else -1;
      match PyIndex(|items|, i)
      case Some(j) => |res.1| + 1 == |items| && res.1[..j] + [res.0] + res.1[j..] == items
      case None => res == (default, items)
  {
    var i := if key.Some? then key.value else -1;
    match PyIndex(|items|, i)
    case Some(j) =>
      var rest := items[..j] + items[j + 1..];
      assert rest[..j] + [items[j]] + rest[j..] == items;
      (items[j], rest)
    case None => (default, items)
  }

  /** The popped element and the rest hold exactly what the list held. */
  lemma ListPopKeepsElements<T>(items: seq<T>, key: Option<int>, default: T)
    requires PyIndex(|items|, if key.Some? then key.value else -1).Some?
    ensures var res := ListPop(items, key, default);
      multiset(res.1) + multiset{res.0} == multiset(items) && |res.1| == |items| - 1
  {
    var res := ListPop(items, key, default);
    var j := PyIndex(|items|, if key.Some? then key.value else -1).value;
    assert res.1 == res.1[..j] + res.1[j..];
    calc {
      multiset(items);
      multiset(res.1[..j] + [res.0] + res.1[j..]);
      multiset(res.1[..j]) + multiset{res.0} + multiset(res.1[j..]);
      multiset(res.1) + multiset{res.0};
    }
  }

  /** `default_pop` on a list, which it changes in place. */
  method DefaultPopList<T>(poppable: PyList<T>, key: Option<int>, default: T) returns (r: T)
    modifies poppable
    ensures (r, poppable.items) == ListPop(old(poppable.items), key, default)
  {
    var i := if key.Some? then key.value else -1;
    var n := |poppable.items|;
    if -n <= i < n {
      var j := if i < 0 then i + n else i;
      r := poppable.items[j];
      poppable.items := poppable.items[..j] + poppable.items[j + 1..];
    } else {
      r := default;
    }
  }

  /**
   * `default_pop` on a dict: `pop(key)` removes and returns the value; a
   * missing key (`KeyError`) gives `default` and leaves the dict as it was;
   * `pop()` with no key raises `TypeError`, which is not caught.
   */
  function DictPop<K(==, !new), V>(m: map<K, V>, key: Option<K>, default: V): (r: Result<(V, map<K, V>)>)
    ensures key.None? <==> r == Err(TypeError)
    ensures key.Some? && key.value in m ==>
      r.Ok? && r.value.0 == m[key.value] && key.value !in r.value.1 && r.value.1[key.value := r.value.0] == m
    ensures key.Some? && key.value !in m ==> r == Ok((default, m))
  {
    match key
    case None => Err(TypeError)
    case Some(k) =>
      if k in m then
        var rest := m - {k};
        assert rest[k := m[k]] == m;
        Ok((m[k], rest))
      else Ok((default, m))
  }

  /** `default_pop` on a dict, which it changes in place. */
  method DefaultPopDict<K(==, !new), V>(poppable: PyDict<K, V>, key: Option<K>, default: V) returns (r: Result<V>)
    modifies poppable
    ensures match DictPop(old(poppable.data), key, default)
      case Err(e) => r == Err(e) && poppable.data == old(poppable.data)
      case Ok(res) => r == Ok(res.0) && poppable.data == res.1
  {
    if key.None? {
      return Err(TypeError);
    }
    var k := key.value;
    if k in poppable.data {
      r := Ok(poppable.data[k]);
      poppable.data := poppable.data - {k};
    } else {
      r := Ok(default);
    }
  }

  // ---------------------------------------------------------------------
  // setdefaults_of
  // ---------------------------------------------------------------------

  /** The dict after `setdefault(key, value)` for every pair of `defaults`: old entries win. */
  function SetDefaults<K(==, !new), V>(m: map<K, V>, defaults: map<K, V>): (r: map<K, V>)
    ensures forall k :: k in r <==> k in m || k in defaults
    ensures forall k :: k in m ==> r[k] == m[k]
    ensures forall k :: k in defaults && k !in m ==> r[k] == defaults[k]
  {
    map k | k in m.Keys + defaults.Keys :: if k in m then m[k] else defaults[k]
  }

  /** "Basically dict.update that prefers to keep old values": updating the defaults with the old dict. */
  lemma SetDefaultsIsReversedUpdate<K(!new), V>(m: map<K, V>, defaults: map<K, V>)
    ensures SetDefaults(m, defaults) == defaults + m
  {
  }

  /** Setting the same defaults again changes nothing. */
  lemma SetDefaultsIdempotent<K(!new), V>(m: map<K, V>, defaults: map<K, V>)
    ensures SetDefaults(SetDefaults(m, defaults), defaults) == SetDefaults(m, defaults)
  {
  }

  /** The keyword arguments whose keys are in `done`. */
  function Only<K(!new), V>(kwargs: map<K, V>, done: set<K>): (r: map<K, V>)
    requires done <= kwargs.Keys
  {
    map k | k in done :: kwargs[k]
  }

  /** One more `setdefault` step of the loop. */
  lemma SetDefaultsStep<K(!new), V>(m: map<K, V>, kwargs: map<K, V>, done: set<K>, k: K)
    requires done <= kwargs.Keys && k in kwargs && k !in done
    ensures var before := SetDefaults(m, Only(kwargs, done));
      SetDefaults(m, Only(kwargs, done + {k})) == if k in before then before else before[k := kwargs[k]]
  {
  }

  /**
   * `setdefaults_of`: `a_dict.setdefault(key, value)` for each keyword
   * argument, in place; the result is the keyword arguments themselves, not
   * the updated dict.
   */
  method SetDefaultsOf<K(==, !new), V>(aDict: PyDict<K, V>, kwargs: map<K, V>) returns (r: map<K, V>)
    modifies aDict
    ensures aDict.data == SetDefaults(old(aDict.data), kwargs)
    ensures r == kwargs
  {
    ghost var start := aDict.data;
    var done: set<K> := {};
    while done != kwargs.Keys
      invariant done <= kwargs.Keys
      invariant aDict.data == SetDefaults(start, Only(kwargs, done))
      decreases |kwargs.Keys - done|
    {
      var k :| k in kwargs.Keys - done;
      SetDefaultsStep(start, kwargs, done, k);
      if k !in aDict.data {
        aDict.data := aDict.data[k := kwargs[k]];
      }
      done := done + {k};
    }
    assert Only(kwargs, done) == kwargs;
    r := kwargs;
  }

  /**
   * What `setdefaults_of` hands back, `kwargs` by `SetDefaultsOf`'s
   * contract, differs from the dict it updated whenever the caller already
   * had a key with another value: the dict keeps the caller's value.
   * For instance a caller's `encoding="ascii"` survives in the dict, but
   * the returned mapping says "utf-8".
   */
  lemma SetDefaultsOfReturnsDefaults<K(!new), V>(m: map<K, V>, kwargs: map<K, V>, k: K)
    requires k in m && k in kwargs && m[k] != kwargs[k]
    ensures SetDefaults(m, kwargs)[k] == m[k] != kwargs[k]
    ensures SetDefaults(m, kwargs) != kwargs
  {
  }

  /** `setdefaults_of` returning the updated dict, as its callers use it. */
  method SetDefaultsOfMerged<K(==, !new), V>(aDict: PyDict<K, V>, kwargs: map<K, V>) returns (r: map<K, V>)
    modifies aDict
    ensures r == aDict.data == SetDefaults(old(aDict.data), kwargs)
    ensures forall k :: k in old(aDict.data) ==> k in r && r[k] == old(aDict.data)[k]
  {
    var ignored := SetDefaultsOf(aDict, kwargs);
    r := aDict.data;
  }

  // ---------------------------------------------------------------------
  // Peeler
  // ---------------------------------------------------------------------

  /**
   * A value as `Peeler` sees it: a leaf (a string, bytes, a number: what
   * `can_peel` rejects), a sequence container, or a mapping whose values are
   * visited in key order.
   */
  datatype Nested<T> =
    | Leaf(value: T)
    | Items(items: seq<Nested<T>>)
    | Mapping(entries: seq<(string, Nested<T>)>)

  /** `list(chain(*lists))`. */
  function Flatten<T>(xss: seq<seq<T>>): (r: seq<T>)
    ensures |xss| == 1 ==> r == xss[0]
  {
    if |xss| == 0 then [] else xss[0] + Flatten(xss[1..])
  }

  lemma {:induction false} FlattenAppend<T>(a: seq<seq<T>>, b: seq<seq<T>>)
    ensures Flatten(a + b) == Flatten(a) + Flatten(b)
  {
    if |a| > 0 {
      assert (a + b)[0] == a[0] && (a + b)[1..] == a[1..] + b;
      FlattenAppend(a[1..], b);
      assert Flatten(a + b) == a[0] + (Flatten(a[1..]) + Flatten(b));
    } else {
      assert a + b == b;
    }
  }

  lemma {:induction false} FlattenMember<T>(xss: seq<seq<T>>, v: T)
    ensures v in Flatten(xss) <==> exists i :: 0 <= i < |xss| && v in xss[i]
  {
    if |xss| > 0 {
      FlattenMember(xss[1..], v);
      if v in Flatten(xss[1..]) {
        var i :| 0 <= i < |xss[1..]| && v in xss[1..][i];
        assert v in xss[i + 1];
      }
      forall i | 0 < i < |xss| && v in xss[i] ensures v in Flatten(xss[1..]) {
        assert xss[1..][i - 1] == xss[i];
      }
    }
  }

  /** The peels of the children of a container, in order. */
  function PeelChildren<T>(n: Nested<T>): (fruitLists: seq<seq<T>>)
    requires !n.Leaf?
    decreases n, 0
  {
    match n
    case Items(xs) => seq(|xs|, i requires 0 <= i < |xs| => Peel(xs[i]))
    case Mapping(es) => seq(|es|, i requires 0 <= i < |es| => Peel(es[i].1))
  }

  /** `Peeler.peel`: every leaf buried in the structure, in order. */
  function Peel<T>(n: Nested<T>): (fruits: seq<T>)
    decreases n, 1
  {
    if n.Leaf? then [n.value] else Flatten(PeelChildren(n))
  }

  /** Whether `v` is a leaf somewhere in `n`; a reference for what `peel` must find. */
  predicate Buried<T(==)>(n: Nested<T>, v: T)
    decreases n
  {
    match n
    case Leaf(w) => w == v
    case Items(xs) => exists i :: 0 <= i < |xs| && Buried(xs[i], v)
    case Mapping(es) => exists i :: 0 <= i < |es| && Buried(es[i].1, v)
  }

  /** `peel` finds exactly the buried leaves. */
  lemma {:induction false} PeelFindsBuried<T>(n: Nested<T>, v: T)
    ensures v in Peel(n) <==> Buried(n, v)
    decreases n
  {
    if !n.Leaf? {
      var fl := PeelChildren(n);
      FlattenMember(fl, v);
      match n
      case Items(xs) =>
        forall i | 0 <= i < |xs| ensures v in fl[i] <==> Buried(xs[i], v) {
          PeelFindsBuried(xs[i], v);
        }
      case Mapping(es) =>
        forall i | 0 <= i < |es| ensures v in fl[i] <==> Buried(es[i].1, v) {
          PeelFindsBuried(es[i].1, v);
        }
    }
  }

  /** Peeling a list of containers is peeling each in turn: the order of the input is kept. */
  lemma PeelItemsAppend<T>(xs: seq<Nested<T>>, ys: seq<Nested<T>>)
    ensures Peel(Items(xs + ys)) == Peel(Items(xs)) + Peel(Items(ys))
  {
    assert PeelChildren(Items(xs + ys)) == PeelChildren(Items(xs)) + PeelChildren(Items(ys));
    FlattenAppend(PeelChildren(Items(xs)), PeelChildren(Items(ys)));
  }

  /** A container holding one value peels to what the value peels to; an empty one peels to nothing. */
  lemma PeelWrapped<T>(n: Nested<T>)
    ensures Peel(Items([n])) == Peel(n)
    ensures Peel<T>(Items([])) == [] && Peel<T>(Mapping([])) == []
  {
    assert PeelChildren(Items([n])) == [Peel(n)];
  }

  /** `max(sizes)`. */
  function MaxLength<T>(fs: seq<seq<T>>): (m: nat)
    requires |fs| > 0
    ensures forall j :: 0 <= j < |fs| ==> |fs[j]| <= m
    ensures exists j :: 0 <= j < |fs| && |fs[j]| == m
  {
    if |fs| == 1 then |fs[0]|
    else
      var m := MaxLength(fs[1..]);
      assert forall j :: 1 <= j < |fs| ==> fs[j] == fs[1..][j - 1];
      if |fs[0]| >= m then |fs[0]| else m
  }

  /** `sizes.index(m)`: the first index holding an element of length `m`. */
  function IndexOfLength<T>(fs: seq<seq<T>>, m: nat): (i: nat)
    requires exists j :: 0 <= j < |fs| && |fs[j]| == m
    ensures i < |fs| && |fs[i]| == m
    ensures forall j :: 0 <= j < i ==> |fs[j]| != m
  {
    if |fs[0]| == m then 0
    else
      var j :| 0 <= j < |fs| && |fs[j]| == m;
      assert fs[1..][j - 1] == fs[j];
      IndexOfLength(fs[1..], m) + 1
  }

  /** `i` is the first position of a longest element of `fs`. */
  predicate FirstLongestAt<T>(fs: seq<seq<T>>, i: int) {
    && 0 <= i < |fs|
    && (forall j :: 0 <= j < |fs| ==> |fs[j]| <= |fs[i]|)
    && (forall j :: 0 <= j < i ==> |fs[j]| < |fs[i]|)
  }

  /**
   * `Peeler.core`: the first longest leaf when there are several, the only
   * leaf when there is one, and `IndexError` when there is none.
   */
  function Core<T>(n: Nested<seq<T>>): (r: Result<seq<T>>)
    ensures r.Err? <==> |Peel(n)| == 0
    ensures r.Err? ==> r.error == IndexError
    ensures r.Ok? ==> exists i :: FirstLongestAt(Peel(n), i) && r.value == Peel(n)[i]
  {
    var fruits := Peel(n);
    if |fruits| > 1 then
      var i := IndexOfLength(fruits, MaxLength(fruits));
      assert FirstLongestAt(fruits, i);
      Ok(fruits[i])
    else if |fruits| == 1 then
      assert FirstLongestAt(fruits, 0);
      Ok(fruits[0])
    else Err(IndexError)
  }
}
