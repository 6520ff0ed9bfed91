/*
 * `get_value_dynamic_keys` and `set_value_dynamic_keys`: reading and writing
 * a nested dictionary along a path of keys. Python dictionaries are mutable
 * objects that can be shared, so they live in a heap: a `Value` is either a
 * reference to a dictionary of the heap or a scalar leaf, and the setter
 * changes the heap in place and answers with the very reference it was given.
 * Keys are strings; a leaf stands for a value that is not a container (an int,
 * say), on which `in` and indexing raise `TypeError`.
 */
module NestedDicts {
  import opened Wrappers

  datatype Value = Dict(ref: nat) | Leaf(scalar: int)

  /** The exceptions the two helpers can raise. */
  datatype PyError = KeyError(key: string) | TypeError | IndexError

  type Entries = map<string, Value>

  /** The dictionaries, by reference, and the next unused reference. */
  datatype Heap = Heap(dicts: map<nat, Entries>, next: nat)

  /** The entries of a dictionary; a reference outside the heap, which a
      closed heap never holds, reads as an empty dictionary. */
  function EntriesOf(h: Heap, r: nat): Entries {
    if r in h.dicts then h.dicts[r] else map[]
  }

  /** The value names a dictionary of the heap, or is a leaf. */
  predicate Holds(h: Heap, v: Value) {
    v.Dict? ==> v.ref in h.dicts
  }

  /** Every reference is below `next`, and every stored dictionary reference
      names a dictionary of the heap. */
  predicate Closed(h: Heap) {
    && (forall r :: r in h.dicts ==> r < h.next)
    && (forall r, k :: r in h.dicts && k in h.dicts[r] ==> Holds(h, h.dicts[r][k]))
  }

  /** Every stored reference names a dictionary with a larger number. Under
      such a numbering no dictionary contains itself, directly or not (it may
      still be shared); a heap without cycles can always be renumbered so
      that it holds, but this predicate asks for the numbering itself. */
  predicate Acyclic(h: Heap) {
    forall r, k :: r in h.dicts && k in h.dicts[r] && h.dicts[r][k].Dict? ==> r < h.dicts[r][k].ref
  }

  /** `d[k1][k2]...[kn]`: the first missing key raises `KeyError`, indexing a
      leaf raises `TypeError`. */
  function Lookup(h: Heap, d: Value, keys: seq<string>): Result<Value, PyError>
    decreases |keys|
  {
    if |keys| == 0 then Success(d)
    else
      match d
      case Leaf(_) => Failure(TypeError)
      case Dict(r) =>
        if keys[0] !in EntriesOf(h, r) then Failure(KeyError(keys[0]))
        else Lookup(h, EntriesOf(h, r)[keys[0]], keys[1..])
  }

  /** Following a path in two legs is following the whole path. */
  lemma {:induction false} LookupAppend(h: Heap, d: Value, a: seq<string>, b: seq<string>)
    ensures Lookup(h, d, a + b) == match Lookup(h, d, a)
                                   case Success(v) => Lookup(h, v, b)
                                   case Failure(e) => Failure(e)
    decreases |a|
  {
    if |a| == 0 {
      assert a + b == b;
    } else if d.Dict? && a[0] in EntriesOf(h, d.ref) {
      assert (a + b)[1..] == a[1..] + b;
      LookupAppend(h, EntriesOf(h, d.ref)[a[0]], a[1..], b);
    }
  }

  /** Where the walk over `keys[:-1]` of the setter ends. */
  datatype Walked = Reached(heap: Heap, target: nat) | Missing | NotADict

  /** `d.setdefault(key, {})` on a dictionary `r` without `key`: a fresh empty
      dictionary, stored under `key`. */
  function Grow(h: Heap, r: nat, key: string): Heap {
    Heap(h.dicts[h.next := map[]][r := EntriesOf(h, r)[key := Dict(h.next)]], h.next + 1)
  }

  /** The loop of `set_value_dynamic_keys` over the intermediate keys: follow a
      present key; otherwise, when creating, store a fresh empty dictionary
      under it (`setdefault`) and go on from there; otherwise stop. `in` on a
      leaf raises `TypeError`, and so does the final test when the walk ends
      on a leaf. */
  function Walk(h: Heap, d: Value, path: seq<string>, createMissing: bool): Walked
    decreases |path|
  {
    match d
    case Leaf(_) => NotADict
    case Dict(r) =>
      if |path| == 0 then Reached(h, r)
      else if path[0] in EntriesOf(h, r) then Walk(h, EntriesOf(h, r)[path[0]], path[1..], createMissing)
      else if createMissing then Walk(Grow(h, r, path[0]), Dict(h.next), path[1..], createMissing)
      else Missing
  }

  /** `set_value_dynamic_keys(dic, keys, value, create_missing)`: the heap
      afterwards and the returned value (`None` when the function falls off its
      end), or the exception. */
  function SetValue(h: Heap, dic: Value, keys: seq<string>, value: Value, createMissing: bool)
    : Result<(Heap, Option<Value>), PyError>
  {
    if |keys| == 0 then Failure(IndexError)
    else
      match Walk(h, dic, keys[..|keys| - 1], createMissing)
      case NotADict => Failure(TypeError)
      case Missing => Success((h, Some(dic)))
      case Reached(walked, r) =>
        var last := keys[|keys| - 1];
        if last in EntriesOf(walked, r) || createMissing then
          Success((Heap(walked.dicts[r := EntriesOf(walked, r)[last := value]], walked.next), Some(dic)))
        else Success((walked, None))
  }

  /** Existing dictionaries and their entries are all still there, unchanged,
      in `h'`. */
  predicate Extends(h: Heap, h': Heap) {
    && h.next <= h'.next
    && (forall r :: r in h.dicts ==> r in h'.dicts)
    && (forall r, k :: r in h.dicts && k in h.dicts[r] ==> k in h'.dicts[r] && h'.dicts[r][k] == h.dicts[r][k])
  }

  /** Growing keeps the heap closed (and acyclic), keeps every existing entry,
      and adds one empty dictionary above every existing one. */
  lemma GrowKeeps(h: Heap, r: nat, key: string)
    requires Closed(h) && r in h.dicts && key !in h.dicts[r]
    ensures Closed(Grow(h, r, key)) && Extends(h, Grow(h, r, key))
    ensures Acyclic(h) ==> Acyclic(Grow(h, r, key))
    ensures Grow(h, r, key).dicts[r][key] == Dict(h.next)
    ensures h.next in Grow(h, r, key).dicts && Grow(h, r, key).dicts[h.next] == map[]
    ensures forall q :: q in Grow(h, r, key).dicts && q !in h.dicts ==> q == h.next
  {
  }

  lemma ExtendsTransitive(a: Heap, b: Heap, c: Heap)
    requires Extends(a, b) && Extends(b, c)
    ensures Extends(a, c)
  {
  }

  /** A creating walk never stops at a missing key. */
  lemma {:induction false} CreatingNeverMissing(h: Heap, d: Value, path: seq<string>)
    ensures !Walk(h, d, path, true).Missing?
    decreases |path|
  {
    if d.Dict? && |path| > 0 {
      if path[0] in EntriesOf(h, d.ref) {
        CreatingNeverMissing(h, EntriesOf(h, d.ref)[path[0]], path[1..]);
      } else {
        CreatingNeverMissing(Grow(h, d.ref, path[0]), Dict(h.next), path[1..]);
      }
    }
  }

  /** A walk keeps the heap closed (and acyclic), leaves every existing entry
      as it was, and ends at the dictionary that looking the path up in the
      new heap gives. */
  lemma {:induction false} WalkReaches(h: Heap, d: Value, path: seq<string>, createMissing: bool)
    requires Closed(h) && Holds(h, d)
    requires Walk(h, d, path, createMissing).Reached?
    ensures var w := Walk(h, d, path, createMissing);
            && Closed(w.heap) && (Acyclic(h) ==> Acyclic(w.heap)) && Extends(h, w.heap)
            && w.target in w.heap.dicts
            && Lookup(w.heap, d, path) == Success(Dict(w.target))
    decreases |path|
  {
    var r := d.ref;
    if |path| > 0 {
      if path[0] in EntriesOf(h, r) {
        var v := EntriesOf(h, r)[path[0]];
        WalkReaches(h, v, path[1..], createMissing);
      } else {
        var grown := Grow(h, r, path[0]);
        GrowKeeps(h, r, path[0]);
        WalkReaches(grown, Dict(h.next), path[1..], createMissing);
        var w := Walk(grown, Dict(h.next), path[1..], createMissing);
        ExtendsTransitive(h, grown, w.heap);
      }
    }
  }

  /** In an acyclic heap, a path that ends at dictionary `q` only reads entries
      of dictionaries before `q`: replacing the entries of `q` does not change
      where it leads. */
  lemma {:induction false} LookupAvoidsTarget(h: Heap, d: Value, path: seq<string>, q: nat, entries: Entries)
    requires Acyclic(h) && d.Dict?
    requires Lookup(h, d, path) == Success(Dict(q))
    ensures d.ref <= q
    ensures Lookup(Heap(h.dicts[q := entries], h.next), d, path) == Success(Dict(q))
    decreases |path|
  {
    if |path| > 0 {
      var v := EntriesOf(h, d.ref)[path[0]];
      assert v.Dict? && d.ref < v.ref by {
        if |path| == 1 {
          assert v == Dict(q);
        }
      }
      LookupAvoidsTarget(h, v, path[1..], q, entries);
      assert EntriesOf(Heap(h.dicts[q := entries], h.next), d.ref) == EntriesOf(h, d.ref);
    }
  }

  /** After setting with `create_missing`, reading the same path gives the value
      set, and the dictionary passed in is what is returned. */
  lemma SetThenGet(h: Heap, dic: Value, keys: seq<string>, value: Value)
    requires Closed(h) && Acyclic(h) && Holds(h, dic)
    requires SetValue(h, dic, keys, value, true).Success?
    ensures SetValue(h, dic, keys, value, true).value.1 == Some(dic)
    ensures Lookup(SetValue(h, dic, keys, value, true).value.0, dic, keys) == Success(value)
  {
    var path := keys[..|keys| - 1];
    var last := keys[|keys| - 1];
    var w := Walk(h, dic, path, true);
    CreatingNeverMissing(h, dic, path);
    WalkReaches(h, dic, path, true);
    var entries := EntriesOf(w.heap, w.target)[last := value];
    var h2 := Heap(w.heap.dicts[w.target := entries], w.heap.next);
    LookupAvoidsTarget(w.heap, dic, path, w.target, entries);
    LookupAppend(h2, dic, path, [last]);
    assert path + [last] == keys;
  }

  /** The setter's contract needs an acyclic heap: with `d = {}` and
      `d['a'] = d`, setting the path `a, a` to 5 overwrites `d['a']`, and
      reading the path back indexes the scalar 5. */
  lemma SetThenGetCyclic()
    ensures var h := Heap(map[0 := map["a" := Dict(0)]], 1);
            && Closed(h)
            && SetValue(h, Dict(0), ["a", "a"], Leaf(5), true).Success?
            && Lookup(SetValue(h, Dict(0), ["a", "a"], Leaf(5), true).value.0, Dict(0), ["a", "a"]) == Failure(TypeError)
  {
    var h := Heap(map[0 := map["a" := Dict(0)]], 1);
    assert ["a", "a"][..1] == ["a"];
    assert Walk(h, Dict(0), [], true) == Reached(h, 0);
    assert Walk(h, Dict(0), ["a"], true) == Reached(h, 0);
    var h2 := Heap(map[0 := map["a" := Leaf(5)]], 1);
    assert map["a" := Dict(0)]["a" := Leaf(5)] == map["a" := Leaf(5)];
    assert h.dicts[0 := map["a" := Leaf(5)]] == h2.dicts;
    assert SetValue(h, Dict(0), ["a", "a"], Leaf(5), true) == Success((h2, Some(Dict(0))));
    assert ["a", "a"][1..] == ["a"];
  }

  /** Setting leaves every other existing entry alone: the only entry of the
      old heap that can change is the final key of the dictionary the path
      leads to; nothing is removed. */
  lemma SetFrame(h: Heap, dic: Value, keys: seq<string>, value: Value, createMissing: bool, r: nat, k: string)
    requires Closed(h) && Holds(h, dic)
    requires SetValue(h, dic, keys, value, createMissing).Success?
    requires r in h.dicts && k in h.dicts[r]
    ensures var h2 := SetValue(h, dic, keys, value, createMissing).value.0;
            && r in h2.dicts && k in h2.dicts[r]
            && (h2.dicts[r][k] != h.dicts[r][k] ==>
                  && k == keys[|keys| - 1] && h2.dicts[r][k] == value
                  && Lookup(h, dic, keys[..|keys| - 1]) == Success(Dict(r)))
  {
    var path := keys[..|keys| - 1];
    var w := Walk(h, dic, path, createMissing);
    if w.Reached? {
      WalkReaches(h, dic, path, createMissing);
      WalkToExisting(h, dic, path, createMissing);
    }
  }

  /** A walk that ends at a dictionary of the old heap created nothing on the
      way. */
  lemma {:induction false} WalkToExisting(h: Heap, d: Value, path: seq<string>, createMissing: bool)
    requires Closed(h) && Holds(h, d)
    requires Walk(h, d, path, createMissing).Reached?
    ensures Walk(h, d, path, createMissing).target in h.dicts ==> Walk(h, d, path, createMissing).heap == h
    decreases |path|
  {
    if |path| > 0 {
      var entries := EntriesOf(h, d.ref);
      if path[0] in entries {
        WalkToExisting(h, entries[path[0]], path[1..], createMissing);
      } else {
        var grown := Grow(h, d.ref, path[0]);
        GrowKeeps(h, d.ref, path[0]);
        CreatingWalk(grown, h.next, path[1..]);
      }
    }
  }

  /** Without `create_missing` the setter is decided by looking up
      `keys[:-1]`: a missing key returns `dic` with nothing changed, a
      dictionary without the final key makes it return `None` with nothing
      changed, and a dictionary with it gets only that entry overwritten. */
  lemma {:induction false} SetWithoutCreating(h: Heap, dic: Value, keys: seq<string>, value: Value)
    requires |keys| > 0
    ensures var path := keys[..|keys| - 1];
            var last := keys[|keys| - 1];
            SetValue(h, dic, keys, value, false) ==
              match Lookup(h, dic, path)
              case Failure(KeyError(_)) => Success((h, Some(dic)))
              case Failure(_) => Failure(TypeError)
              case Success(Leaf(_)) => Failure(TypeError)
              case Success(Dict(r)) =>
                if last in EntriesOf(h, r) then Success((Heap(h.dicts[r := EntriesOf(h, r)[last := value]], h.next), Some(dic)))
                else Success((h, None))
  {
    WalkWithoutCreating(h, dic, keys[..|keys| - 1]);
  }

  /** A walk that does not create is a lookup. */
  lemma {:induction false} WalkWithoutCreating(h: Heap, d: Value, path: seq<string>)
    ensures Walk(h, d, path, false) == match Lookup(h, d, path)
                                      case Failure(KeyError(_)) => Missing
                                      case Failure(_) => NotADict
                                      case Success(Leaf(_)) => NotADict
                                      case Success(Dict(r)) => Reached(h, r)
    decreases |path|
  {
    if |path| > 0 && d.Dict? && path[0] in EntriesOf(h, d.ref) {
      WalkWithoutCreating(h, EntriesOf(h, d.ref)[path[0]], path[1..]);
    }
  }

  /** Once a creating walk stands on a fresh empty dictionary `q`, every
      further key is missing: each step stores one new empty dictionary under
      the key in the current one, which then holds that key only, and nothing
      else changes. */
  lemma {:induction false} CreatingWalk(h: Heap, q: nat, path: seq<string>)
    requires q in h.dicts && h.dicts[q] == map[]
    requires forall r :: r in h.dicts ==> r < h.next
    ensures var w := Walk(h, Dict(q), path, true);
            && w.Reached? && q in w.heap.dicts && w.target in w.heap.dicts
            && (w.target == q || w.target !in h.dicts)
            && (w.target == q <==> |path| == 0)
            && (w.target == q ==> w.heap.dicts[q] == map[])
            && (w.target != q ==> |w.heap.dicts[q]| == 1)
            && (forall r :: r in h.dicts && r != q ==> r in w.heap.dicts && w.heap.dicts[r] == h.dicts[r])
            && (forall r :: r in w.heap.dicts && r !in h.dicts ==>
                  (r == w.target ==> w.heap.dicts[r] == map[]) && (r != w.target ==> |w.heap.dicts[r]| == 1))
    decreases |path|
  {
    if |path| > 0 {
      var grown := Grow(h, q, path[0]);
      assert grown.dicts[q].Keys == {path[0]};
      CreatingWalk(grown, h.next, path[1..]);
    }
  }

  /** Every dictionary a creating walk adds holds exactly one key, except the
      dictionary it ends on, which is still empty. */
  lemma {:induction false} WalkCreatesOneKeyDicts(h: Heap, d: Value, path: seq<string>)
    requires Closed(h) && Holds(h, d)
    requires Walk(h, d, path, true).Reached?
    ensures var w := Walk(h, d, path, true);
            forall r :: r in w.heap.dicts && r !in h.dicts ==>
              (r == w.target ==> w.heap.dicts[r] == map[]) && (r != w.target ==> |w.heap.dicts[r]| == 1)
    decreases |path|
  {
    if |path| > 0 {
      var entries := EntriesOf(h, d.ref);
      if path[0] in entries {
        WalkCreatesOneKeyDicts(h, entries[path[0]], path[1..]);
      } else {
        CreatingWalk(Grow(h, d.ref, path[0]), h.next, path[1..]);
      }
    }
  }

  /** With `create_missing`, every dictionary the setter creates ends up
      holding exactly one key: the next key of the path, or the final key. */
  lemma SetCreatesOneKeyDicts(h: Heap, dic: Value, keys: seq<string>, value: Value, r: nat)
    requires Closed(h) && Holds(h, dic)
    requires SetValue(h, dic, keys, value, true).Success?
    requires r in SetValue(h, dic, keys, value, true).value.0.dicts && r !in h.dicts
    ensures |SetValue(h, dic, keys, value, true).value.0.dicts[r]| == 1
  {
    var path := keys[..|keys| - 1];
    var w := Walk(h, dic, path, true);
    WalkCreatesOneKeyDicts(h, dic, path);
    if r == w.target {
      var entries := EntriesOf(w.heap, w.target)[keys[|keys| - 1] := value];
      assert entries.Keys == {keys[|keys| - 1]};
    }
  }

  /** The state of the setter's loop after `i` intermediate keys: the rest of
      the walk from `d` in `h` ends where the whole walk from `dic` in `h0`
      does, and a heap that has changed has just grown a new empty dictionary
      `d`. */
  ghost predicate Walking(h0: Heap, h: Heap, dic: Value, d: Value, value: Value, path: seq<string>, i: nat, createMissing: bool) {
    && i <= |path|
    && Closed(h) && Holds(h, d) && Holds(h, value)
    && Walk(h0, dic, path, createMissing) == Walk(h, d, path[i..], createMissing)
    && (!createMissing ==> h == h0)
    && (h != h0 ==> d.Dict? && d.ref in h.dicts && h.dicts[d.ref] == map[])
  }

  lemma WalkingStarts(h0: Heap, dic: Value, value: Value, path: seq<string>, createMissing: bool)
    requires Closed(h0) && Holds(h0, dic) && Holds(h0, value)
    ensures Walking(h0, h0, dic, dic, value, path, 0, createMissing)
  {
    assert path[0..] == path;
  }

  lemma WalkingFollows(h0: Heap, h: Heap, dic: Value, d: Value, value: Value, path: seq<string>, i: nat, createMissing: bool)
    requires Walking(h0, h, dic, d, value, path, i, createMissing)
    requires i < |path| && d.Dict? && path[i] in h.dicts[d.ref]
    ensures Walking(h0, h, dic, h.dicts[d.ref][path[i]], value, path, i + 1, createMissing)
  {
    assert path[i..][1..] == path[i + 1..];
  }

  lemma WalkingCreates(h0: Heap, h: Heap, dic: Value, d: Value, value: Value, path: seq<string>, i: nat, createMissing: bool)
    requires Walking(h0, h, dic, d, value, path, i, createMissing)
    requires i < |path| && d.Dict? && path[i] !in h.dicts[d.ref] && createMissing
    ensures Walking(h0, Grow(h, d.ref, path[i]), dic, Dict(h.next), value, path, i + 1, createMissing)
  {
    assert path[i..][1..] == path[i + 1..];
    GrowKeeps(h, d.ref, path[i]);
  }

  /** Where the loop leaves the walk: on a leaf, at a missing key without
      creating, or after the last intermediate key. */
  lemma WalkingStops(h0: Heap, h: Heap, dic: Value, d: Value, value: Value, path: seq<string>, i: nat, createMissing: bool)
    requires Walking(h0, h, dic, d, value, path, i, createMissing)
    ensures d.Leaf? ==> Walk(h0, dic, path, createMissing) == NotADict && h == h0
    ensures d.Dict? && i < |path| && path[i] !in h.dicts[d.ref] && !createMissing ==>
              Walk(h0, dic, path, createMissing) == Missing && h == h0
    ensures d.Dict? && i == |path| ==> Walk(h0, dic, path, createMissing) == Reached(h, d.ref)
  {
  }

  /** The dictionaries of a Python process, with `set_value_dynamic_keys` and
      `get_value_dynamic_keys` acting on them in place. */
  class DictHeap {
    var dicts: map<nat, Entries>
    var next: nat

    function State(): Heap
      reads this
    {
      Heap(dicts, next)
    }

    predicate Valid()
      reads this
    {
      Closed(State())
    }

    constructor ()
      ensures Valid() && dicts == map[] && next == 0
    {
      dicts := map[];
      next := 0;
    }

    /** `{}`: a new empty dictionary. */
    method NewDict() returns (d: Value)
      requires Valid()
      modifies this
      ensures Valid() && d == Dict(old(next))
      ensures dicts == old(dicts)[old(next) := map[]] && next == old(next) + 1
    {
      d := Dict(next);
      dicts := dicts[next := map[]];
      next := next + 1;
    }

    /** `get_value_dynamic_keys(d, keys)`. */
    method GetValueDynamicKeys(d: Value, keys: seq<string>) returns (r: Result<Value, PyError>)
      requires Valid() && Holds(State(), d)
      ensures r == Lookup(State(), d, keys)
    {
      var current := d;
      for i := 0 to |keys|
        invariant Holds(State(), current)
        invariant Lookup(State(), d, keys) == Lookup(State(), current, keys[i..])
      {
        assert keys[i..][1..] == keys[i + 1..];
        if current.Leaf? {
          return Failure(TypeError);
        }
        if keys[i] !in dicts[current.ref] {
          return Failure(KeyError(keys[i]));
        }
        current := dicts[current.ref][keys[i]];
      }
      return Success(current);
    }

    /** `set_value_dynamic_keys(dic, keys, value, create_missing)`: on success
        the heap is changed in place and the result is `dic` itself or `None`;
        an exception leaves the heap as it was. */
    method SetValueDynamicKeys(dic: Value, keys: seq<string>, value: Value, createMissing: bool)
        returns (r: Result<Option<Value>, PyError>)
      requires Valid() && Holds(State(), dic) && Holds(State(), value)
      modifies this
      ensures Valid()
      ensures r.Failure? ==> SetValue(old(State()), dic, keys, value, createMissing) == Failure(r.error)
                             && State() == old(State())
      ensures r.Success? ==> SetValue(old(State()), dic, keys, value, createMissing) == Success((State(), r.value))
    {
      if |keys| == 0 {
        return Failure(IndexError);
      }
      ghost var h0 := State();
      var n := |keys| - 1;
      ghost var path := keys[..n];
      var d := dic;
      WalkingStarts(h0, dic, value, path, createMissing);
      for i := 0 to n
        invariant Walking(h0, State(), dic, d, value, path, i, createMissing)
      {
        WalkingStops(h0, State(), dic, d, value, path, i, createMissing);
        if d.Leaf? {
          return Failure(TypeError);
        }
        var key := keys[i];
        if key in dicts[d.ref] {
          WalkingFollows(h0, State(), dic, d, value, path, i, createMissing);
          d := dicts[d.ref][key];
        } else if createMissing {
          WalkingCreates(h0, State(), dic, d, value, path, i, createMissing);
          ghost var before := State();
          var created := Dict(next);
          dicts := dicts[next := map[]][d.ref := dicts[d.ref][key := created]];
          next := next + 1;
          assert State() == Grow(before, d.ref, key);
          d := created;
        } else {
          return Success(Some(dic));
        }
      }
      WalkingStops(h0, State(), dic, d, value, path, n, createMissing);
      if d.Leaf? {
        return Failure(TypeError);
      }
      var last := keys[n];
      if last in dicts[d.ref] || createMissing {
        dicts := dicts[d.ref := dicts[d.ref][last := value]];
        return Success(Some(dic));
      }
      return Success(None);
    }
  }
}
