/**
 * `list_to_dict` and `populate` (appmail/helpers.py): dotted variable
 * names become a tree of nested dictionaries whose leaves are empty
 * dictionaries, and the leaves are then filled in with a function of
 * their key.
 */
module VarTree {
  import opened Wrappers

  /** A Python value as these helpers see it: a dictionary with string keys, or anything else. */
  datatype Value = Dict(entries: map<string, Value>) | Scalar(text: string)

  const EmptyDict: Value := Dict(map[])

  /** Only dictionaries, all the way down (what `list_to_dict` builds). */
  predicate AllDicts(v: Value) {
    v.Dict? && forall k :: k in v.entries ==> AllDicts(v.entries[k])
  }

  // ---- str.split('.') ------------------------------------------------------

  /** Position of the first `.` in `s`, or `|s|` when there is none. */
  function FirstDot(s: string): (i: nat)
    ensures i <= |s|
    ensures forall j :: 0 <= j < i ==> s[j] != '.'
    ensures i < |s| ==> s[i] == '.'
  {
    if s == [] || s[0] == '.' then 0 else 1 + FirstDot(s[1..])
  }

  /** The parts joined back with `.` (`'.'.join(parts)`). */
  function Join(parts: seq<string>): string
    requires parts != []
  {
    if |parts| == 1 then parts[0] else parts[0] + "." + Join(parts[1..])
  }

  /** `s.split('.')`: never empty, no part contains a dot, and joining the parts gives `s` back. */
  function Split(s: string): (parts: seq<string>)
    ensures parts != []
    ensures forall k :: 0 <= k < |parts| ==> '.' !in parts[k]
    ensures Join(parts) == s
    decreases |s|
  {
    var i := FirstDot(s);
    if i == |s| then
      assert s[..i] == s;
      [s]
    else
      var rest := Split(s[i + 1..]);
      assert s == s[..i] + "." + s[i + 1..];
      [s[..i]] + rest
  }

  /** Splitting a join of dot-free parts gives the parts back. */
  lemma {:induction false} SplitJoin(parts: seq<string>)
    requires parts != []
    requires forall k :: 0 <= k < |parts| ==> '.' !in parts[k]
    ensures Split(Join(parts)) == parts
  {
    var s := Join(parts);
    if |parts| == 1 {
      assert FirstDot(s) == |s|;
    } else {
      var tail := Join(parts[1..]);
      assert s == parts[0] + "." + tail;
      var i := |parts[0]|;
      assert s[i] == '.';
      assert forall j :: 0 <= j < i ==> s[j] == parts[0][j];
      assert FirstDot(s) == i;
      assert s[..i] == parts[0];
      assert s[i + 1..] == tail;
      SplitJoin(parts[1..]);
    }
  }

  // ---- paths ---------------------------------------------------------------

  /** Following the keys of `path` from `v` stays inside dictionaries. */
  predicate HasPath(v: Value, path: seq<string>)
    decreases path
  {
    path == [] || (v.Dict? && path[0] in v.entries && HasPath(v.entries[path[0]], path[1..]))
  }

  /** The value at the end of `path`. */
  function At(v: Value, path: seq<string>): Value
    requires HasPath(v, path)
    decreases path
  {
    if path == [] then v else At(v.entries[path[0]], path[1..])
  }

  predicate IsPrefix(p: seq<string>, q: seq<string>) {
    |p| <= |q| && q[..|p|] == p
  }

  // ---- list_to_dict --------------------------------------------------------

  /**
   * The inner loop of `list_to_dict` for one item: walk down `path` from
   * the root, `setdefault(part, {})` at each step, so existing subtrees are
   * entered and missing keys get a fresh empty dictionary.
   */
  function Insert(t: Value, path: seq<string>): (r: Value)
    requires AllDicts(t)
    ensures AllDicts(r)
    ensures r.entries.Keys == t.entries.Keys + (if path == [] then {} else {path[0]})
    ensures forall k :: k in t.entries && (path == [] || k != path[0]) ==> r.entries[k] == t.entries[k]
    decreases path
  {
    if path == [] then t
    else
      var child := if path[0] in t.entries then t.entries[path[0]] else EmptyDict;
      Dict(t.entries[path[0] := Insert(child, path[1..])])
  }

  /** After inserting `path`, the paths are the old ones and the prefixes of `path`. */
  lemma {:induction false} InsertPaths(t: Value, path: seq<string>, p: seq<string>)
    requires AllDicts(t)
    ensures HasPath(Insert(t, path), p) <==> HasPath(t, p) || IsPrefix(p, path)
    decreases path
  {
    if path != [] && p != [] {
      var r := Insert(t, path);
      var child := if path[0] in t.entries then t.entries[path[0]] else EmptyDict;
      if p[0] == path[0] {
        InsertPaths(child, path[1..], p[1..]);
        assert IsPrefix(p, path) <==> IsPrefix(p[1..], path[1..]);
        if path[0] !in t.entries {
          assert !HasPath(child, p[1..]) || p[1..] == [];
        }
      } else {
        assert !IsPrefix(p, path);
      }
    }
  }

  /** `list_to_dict(items)`, folded item by item as the outer loop runs. */
  function BuildTree(items: seq<string>): (t: Value)
    ensures AllDicts(t)
  {
    if items == [] then EmptyDict
    else Insert(BuildTree(items[..|items| - 1]), Split(items[|items| - 1]))
  }

  /** Some item's dot-split path starts with `p`. */
  predicate PrefixOfSomeItem(items: seq<string>, p: seq<string>) {
    exists k :: 0 <= k < |items| && IsPrefix(p, Split(items[k]))
  }

  /**
   * The tree `list_to_dict` builds is exactly the prefix closure of the
   * items' dot-split paths: a key path exists iff it is the root or a
   * prefix of some item's parts.
   */
  lemma {:induction false} BuildTreePaths(items: seq<string>, p: seq<string>)
    ensures HasPath(BuildTree(items), p) <==> p == [] || PrefixOfSomeItem(items, p)
    decreases |items|
  {
    if items == [] {
      assert HasPath(EmptyDict, p) ==> p == [];
    } else {
      var n := |items| - 1;
      BuildTreePaths(items[..n], p);
      InsertPaths(BuildTree(items[..n]), Split(items[n]), p);
      PrefixOfSomeItemLast(items, p);
    }
  }

  /** A path is a prefix of some item exactly when it is one of an earlier item or of the last. */
  lemma PrefixOfSomeItemLast(items: seq<string>, p: seq<string>)
    requires items != []
    ensures var n := |items| - 1;
      PrefixOfSomeItem(items, p) <==> PrefixOfSomeItem(items[..n], p) || IsPrefix(p, Split(items[n]))
  {
    var n := |items| - 1;
    var front := items[..n];
    if PrefixOfSomeItem(front, p) {
      var k :| 0 <= k < |front| && IsPrefix(p, Split(front[k]));
      assert items[k] == front[k];
    }
    if PrefixOfSomeItem(items, p) {
      var k :| 0 <= k < |items| && IsPrefix(p, Split(items[k]));
      if k < n {
        assert front[k] == items[k];
      }
    }
  }

  /**
   * `list_to_dict`: the outer loop over the items; each item's parts are
   * inserted by `Insert`, which is the inner `setdefault` walk.
   */
  method ListToDict(items: seq<string>) returns (tree: Value)
    ensures tree == BuildTree(items)
    ensures AllDicts(tree)
    ensures items == [] ==> tree == EmptyDict
    ensures forall p :: HasPath(tree, p) <==> p == [] || PrefixOfSomeItem(items, p)
  {
    tree := EmptyDict;
    var i := 0;
    while i < |items|
      invariant 0 <= i <= |items|
      invariant tree == BuildTree(items[..i])
    {
      assert items[..i + 1][..i] == items[..i];
      tree := Insert(tree, Split(items[i]));
      i := i + 1;
    }
    assert items[..i] == items;
    forall p
      ensures HasPath(tree, p) <==> p == [] || PrefixOfSomeItem(items, p)
    {
      BuildTreePaths(items, p);
    }
  }

  /** Two trees of dictionaries with the same key paths are the same tree. */
  lemma {:induction false} SamePathsSameTree(a: Value, b: Value)
    requires AllDicts(a) && AllDicts(b)
    requires forall p :: HasPath(a, p) <==> HasPath(b, p)
    ensures a == b
    decreases a
  {
    forall k | k in a.entries
      ensures k in b.entries
    {
      assert HasPath(a, [k]);
    }
    forall k | k in b.entries
      ensures k in a.entries
    {
      assert HasPath(b, [k]);
    }
    forall k | k in a.entries
      ensures a.entries[k] == b.entries[k]
    {
      forall p
        ensures HasPath(a.entries[k], p) <==> HasPath(b.entries[k], p)
      {
        assert ([k] + p)[1..] == p;
        assert HasPath(a, [k] + p) <==> HasPath(b, [k] + p);
      }
      SamePathsSameTree(a.entries[k], b.entries[k]);
    }
  }

  /**
   * The tree does not depend on the order of the items, nor on how often
   * an item occurs: only the set of items matters.
   */
  lemma ListToDictIgnoresOrder(xs: seq<string>, ys: seq<string>)
    requires forall x :: x in xs <==> x in ys
    ensures BuildTree(xs) == BuildTree(ys)
  {
    forall p
      ensures HasPath(BuildTree(xs), p) <==> HasPath(BuildTree(ys), p)
    {
      BuildTreePaths(xs, p);
      BuildTreePaths(ys, p);
      if PrefixOfSomeItem(xs, p) {
        var k :| 0 <= k < |xs| && IsPrefix(p, Split(xs[k]));
        assert xs[k] in ys;
        var j :| 0 <= j < |ys| && ys[j] == xs[k];
      }
      if PrefixOfSomeItem(ys, p) {
        var k :| 0 <= k < |ys| && IsPrefix(p, Split(ys[k]));
        assert ys[k] in xs;
        var j :| 0 <= j < |xs| && xs[j] == ys[k];
      }
    }
    SamePathsSameTree(BuildTree(xs), BuildTree(ys));
  }

  /** An item's parts continue `p` beyond it. */
  predicate ContinuedBy(p: seq<string>, item: string) {
    IsPrefix(p, Split(item)) && |p| < |Split(item)|
  }

  /** A key below the node at `p` comes from an item that continues `p`. */
  lemma ChildComesFromItem(items: seq<string>, p: seq<string>, key: string) returns (k: nat)
    requires HasPath(BuildTree(items), p + [key])
    ensures k < |items| && ContinuedBy(p, items[k])
  {
    BuildTreePaths(items, p + [key]);
    k :| 0 <= k < |items| && IsPrefix(p + [key], Split(items[k]));
    assert Split(items[k])[..|p|] == (p + [key])[..|p|];
    assert (p + [key])[..|p|] == p;
  }

  /** An item that continues `p` puts a key below the node at `p`. */
  lemma ItemMakesChild(items: seq<string>, p: seq<string>, k: nat)
    requires k < |items| && ContinuedBy(p, items[k])
    ensures HasPath(BuildTree(items), p + [Split(items[k])[|p|]])
  {
    var parts := Split(items[k]);
    var longer := parts[..|p| + 1];
    assert longer == p + [parts[|p|]];
    assert IsPrefix(longer, parts);
    BuildTreePaths(items, longer);
  }

  /**
   * A node is an empty dictionary exactly when no item continues its path,
   * i.e. the leaves are the items' full paths.
   */
  lemma LeavesAreWholeItems(items: seq<string>, p: seq<string>)
    requires HasPath(BuildTree(items), p)
    ensures At(BuildTree(items), p) == EmptyDict <==>
      forall k :: 0 <= k < |items| ==> !ContinuedBy(p, items[k])
  {
    var t := BuildTree(items);
    AtIsDict(t, p);
    var node := At(t, p);
    if node != EmptyDict {
      var key :| key in node.entries;
      HasPathExtend(t, p, key);
      var k := ChildComesFromItem(items, p, key);
    }
    forall k | 0 <= k < |items| && ContinuedBy(p, items[k])
      ensures node != EmptyDict
    {
      ItemMakesChild(items, p, k);
      HasPathExtend(t, p, Split(items[k])[|p|]);
    }
  }

  /** Along a tree of dictionaries, every node reached is a dictionary. */
  lemma {:induction false} AtIsDict(t: Value, p: seq<string>)
    requires AllDicts(t) && HasPath(t, p)
    ensures AllDicts(At(t, p))
    decreases p
  {
    if p != [] {
      AtIsDict(t.entries[p[0]], p[1..]);
    }
  }

  /** A path extends by one key exactly when the node it reaches has that key. */
  lemma {:induction false} HasPathExtend(t: Value, p: seq<string>, key: string)
    requires HasPath(t, p)
    ensures HasPath(t, p + [key]) <==> At(t, p).Dict? && key in At(t, p).entries
    decreases p
  {
    if p == [] {
      assert [] + [key] == [key];
    } else {
      assert (p + [key])[1..] == p[1..] + [key];
      HasPathExtend(t.entries[p[0]], p[1..], key);
    }
  }

  /** The example of the `list_to_dict` docstring, `['a', 'b.c']`, gives `{'a': {}, 'b': {'c': {}}}`. */
  lemma DocstringExample()
    ensures BuildTree(["a", "b.c"]) == Dict(map["a" := EmptyDict, "b" := Dict(map["c" := EmptyDict])])
  {
    var items := ["a", "b.c"];
    SplitJoin(["a"]);
    SplitJoin(["b", "c"]);
    assert Join(["b", "c"]) == "b.c";
    assert items[..1] == ["a"] && ["a"][..0] == [];
    var first := Insert(EmptyDict, ["a"]);
    assert BuildTree(items[..1]) == first;
    assert first == Dict(map["a" := EmptyDict]);
    var leaf := Insert(EmptyDict, ["c"]);
    assert leaf == Dict(map["c" := EmptyDict]);
    assert Insert(first, ["b", "c"]) == Dict(first.entries["b" := leaf]);
  }

  /**
   * The docstring's literal input `['a, b.c']` is a single item, so its
   * first key is `'a, b'`: the result is `{'a, b': {'c': {}}}`.
   */
  lemma DocstringInputAsWritten()
    ensures BuildTree(["a, b.c"]) == Dict(map["a, b" := Dict(map["c" := EmptyDict])])
  {
    SplitJoin(["a, b", "c"]);
    assert Join(["a, b", "c"]) == "a, b.c";
  }

  // ---- populate ------------------------------------------------------------

  /** Calling `populate` on something that is not a dictionary fails (`tree.keys()` does not exist). */
  datatype PopulateError = NotADict

  /**
   * What `populate` puts in place of the value `v` under `key`: `func(key)`
   * for an empty dictionary, the populated value otherwise.
   */
  function PopulateValue(key: string, v: Value, func: string -> Value): Result<Value, PopulateError>
    decreases v, 1
  {
    if v == EmptyDict then Success(func(key)) else Populated(v, func)
  }

  /**
   * What `populate(tree, func)` leaves in `tree`: every value that is an
   * empty dictionary becomes `func(key)`, every other value is populated in
   * turn; a value that is neither (a scalar) makes the call fail.
   */
  function Populated(t: Value, func: string -> Value): (r: Result<Value, PopulateError>)
    ensures r.Success? ==> t.Dict? && r.value.Dict? && r.value.entries.Keys == t.entries.Keys
    decreases t, 0
  {
    match t
    case Scalar(_) => Failure(NotADict)
    case Dict(m) =>
      if forall k :: k in m ==> PopulateValue(k, m[k], func).Success? then
        Success(Dict(map k | k in m :: PopulateValue(k, m[k], func).value))
      else Failure(NotADict)
  }

  /**
   * Under each key, `populate` puts `func(key)` where the value was an empty
   * dictionary and the populated value where it was any other dictionary.
   */
  lemma PopulatedEntry(t: Value, func: string -> Value, k: string)
    requires Populated(t, func).Success? && k in t.entries
    ensures t.entries[k] == EmptyDict ==> Populated(t, func).value.entries[k] == func(k)
    ensures t.entries[k] != EmptyDict ==>
      Populated(t.entries[k], func).Success? &&
      Populated(t, func).value.entries[k] == Populated(t.entries[k], func).value
  {
    assert PopulateValue(k, t.entries[k], func).Success?;
  }

  /**
   * `populate`: for each key, replace an empty-dictionary value by
   * `func(key)`, otherwise populate the value recursively. The update in
   * place is modelled by rebuilding the dictionary key by key.
   */
  method Populate(tree: Value, func: string -> Value) returns (r: Result<Value, PopulateError>)
    ensures r == Populated(tree, func)
    decreases tree
  {
    if tree.Scalar? {
      return Failure(NotADict);
    }
    var m := tree.entries;
    var todo := m.Keys;
    var done: map<string, Value> := map[];
    while todo != {}
      invariant todo <= m.Keys
      invariant done.Keys == m.Keys - todo
      invariant forall k :: k in done ==> PopulateValue(k, m[k], func) == Success(done[k])
      decreases todo
    {
      var k :| k in todo;
      if m[k] == EmptyDict {
        done := done[k := func(k)];
      } else {
        var sub := Populate(m[k], func);
        if sub.Failure? {
          assert PopulateValue(k, m[k], func).Failure?;
          return Failure(NotADict);
        }
        done := done[k := sub.value];
      }
      todo := todo - {k};
    }
    assert done == map k | k in m :: PopulateValue(k, m[k], func).value;
    r := Success(Dict(done));
  }

  /** `populate` succeeds exactly on trees that are dictionaries all the way down. */
  lemma {:induction false} PopulateSucceedsOnDicts(t: Value, func: string -> Value)
    ensures Populated(t, func).Success? <==> AllDicts(t)
    decreases t
  {
    if t.Dict? {
      forall k | k in t.entries
        ensures PopulateValue(k, t.entries[k], func).Success? <==> AllDicts(t.entries[k])
      {
        if t.entries[k] != EmptyDict {
          PopulateSucceedsOnDicts(t.entries[k], func);
        }
      }
    }
  }

  /**
   * In a populated tree of dictionaries, the value at every non-empty path
   * is what `populate` makes of the value that was there: `func` of the
   * path's last key where an empty dictionary was, the populated dictionary
   * otherwise; so the keys of every level are kept.
   */
  lemma {:induction false} PopulatedAt(t: Value, func: string -> Value, p: seq<string>)
    requires AllDicts(t) && HasPath(t, p) && p != []
    ensures Populated(t, func).Success?
    ensures HasPath(Populated(t, func).value, p)
    ensures At(t, p) == EmptyDict ==> At(Populated(t, func).value, p) == func(p[|p| - 1])
    ensures At(t, p) != EmptyDict ==>
      Populated(At(t, p), func).Success? && At(Populated(t, func).value, p) == Populated(At(t, p), func).value
    decreases p
  {
    PopulateSucceedsOnDicts(t, func);
    var k := p[0];
    var child := t.entries[k];
    var r := Populated(t, func).value;
    PopulatedEntry(t, func, k);
    if |p| == 1 {
      assert At(t, p) == child;
      assert At(r, p) == r.entries[k];
    } else {
      assert p[1] in child.entries;
      PopulatedAt(child, func, p[1..]);
      assert At(t, p) == At(child, p[1..]);
      assert At(r, p) == At(r.entries[k], p[1..]);
      assert p[1..][|p[1..]| - 1] == p[|p| - 1];
    }
  }

  /**
   * After `populate(list_to_dict(items), func)`, the value at each item's
   * full path is `func` of the item's last part, when no other item
   * continues that path.
   */
  lemma PopulatedLeaves(items: seq<string>, func: string -> Value, k: nat)
    requires k < |items|
    requires forall j :: 0 <= j < |items| ==> !ContinuedBy(Split(items[k]), items[j])
    ensures Populated(BuildTree(items), func).Success?
    ensures var parts := Split(items[k]);
      HasPath(Populated(BuildTree(items), func).value, parts) &&
      At(Populated(BuildTree(items), func).value, parts) == func(parts[|parts| - 1])
  {
    var parts := Split(items[k]);
    assert IsPrefix(parts, parts);
    BuildTreePaths(items, parts);
    LeavesAreWholeItems(items, parts);
    PopulatedAt(BuildTree(items), func, parts);
  }
}
