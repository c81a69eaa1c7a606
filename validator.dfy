/**
 * The validation-error reducer of utils/validator/mthValidator.go: a translated
 * validation error keyed by its field namespace (`Struct.Inner.name`) is turned
 * into one human-readable string.  `removeTopStruct` drops the struct segment,
 * `addValueToMap` nests the remaining dot-separated segments into a tree of maps,
 * and `handleErrMap` flattens the tree back into `path.path.message`, following
 * a single child per level.
 *
 * Go's map iteration order is unspecified; the methods that range over a map
 * pick the next key with `:|`, and report the order they used as a ghost
 * out-parameter so that their results can be stated against the fold `AddAll`.
 * Runtime panics of the Go code (a failed type assertion, an index or slice out
 * of range) are the `Panic` outcome.
 */
module Validator {
  import opened Text

  datatype Outcome<T> = Done(value: T) | Panic(reason: string)

  /** A value of the Go `map[string]interface{}`: a message, or a further level of fields. */
  datatype ErrTree = Leaf(msg: string) | Node(children: map<string, ErrTree>)

  /** One field error of the validator, with its message already translated. */
  datatype FieldError = FieldError(namespace: string, message: string)

  /** The `error` handed to `ErrResp`: any other error, or a set of validation errors. */
  /** The `error` handed to `ErrResp`; `Nil` is the nil interface value. */
  datatype Error = Nil | Failure(text: string) | ValidationErrors(errs: seq<FieldError>)

  const AssertionPanic := "interface conversion: interface {} is string, not map[string]interface {}"
  const IndexPanic := "index out of range [1] with length 1"
  const SlicePanic := "slice bounds out of range [:1] with capacity 0"
  const NilPanic := "invalid memory address or nil pointer dereference"

  /** What `fmt.Sprintf("%v", m)` prints for an empty or nil `map[string]interface{}`. */
  const EmptyMapText := "map[]"

  // ---------------------------------------------------------------------------
  // unionPrefix and the paths it builds

  /** `unionPrefix`: `v` under an empty prefix, `prefix.v` otherwise. */
  function UnionPrefix(prefix: string, v: string): (r: string)
    ensures r == Join(if prefix == "" then [v] else [prefix, v], '.')
  {
    if prefix != "" then prefix + "." + v else v
  }

  /** The string `handleErrMap` builds when it descends through `keys` and ends at message `m`. */
  function JoinPath(prefix: string, keys: seq<string>, m: string): string
    decreases |keys|
  {
    if keys == [] then UnionPrefix(prefix, m)
    else JoinPath(UnionPrefix(prefix, keys[0]), keys[1..], m)
  }

  /** The keys after any leading empty ones: an empty key under an empty prefix leaves no trace. */
  function DropLeadingEmpty(keys: seq<string>): (r: seq<string>)
    ensures r == [] || r[0] != ""
    ensures |r| <= |keys| && r == keys[|keys| - |r|..]
  {
    if keys != [] && keys[0] == "" then DropLeadingEmpty(keys[1..]) else keys
  }

  /**
   * The text `ErrResp` answers for a field error at namespace `ns`: the
   * segments between the struct name and the field, then the message, joined
   * with dots; leading empty segments leave no trace.
   */
  function FlatMessage(ns: string, msg: string): string
  {
    FlatSegments(Split(ns, '.'), msg)
  }

  /** `FlatMessage` on the segments of the namespace. */
  function FlatSegments(segs: seq<string>, msg: string): string
  {
    if |segs| < 2 then msg else Join(DropLeadingEmpty(segs[1..|segs| - 1]) + [msg], '.')
  }

  /**
   * Without empty segments the answer is the plain formula: for `S.f1.….fn`
   * it is `f1.….f(n-1)` and the message joined with dots, just the message
   * when n = 1.
   */
  lemma FlatMessagePlain(ns: string, msg: string)
    requires |Split(ns, '.')| >= 2
    requires |Split(ns, '.')| == 2 || Split(ns, '.')[1] != ""
    ensures FlatMessage(ns, msg) == Join(Split(ns, '.')[1..|Split(ns, '.')| - 1] + [msg], '.')
    ensures |Split(ns, '.')| == 2 ==> FlatMessage(ns, msg) == msg
  {
    PlainInner(Split(ns, '.'), msg);
  }

  /** The same on the segments: the inner segments then start with no empty one. */
  lemma PlainInner(segs: seq<string>, msg: string)
    requires |segs| >= 2
    requires |segs| == 2 || segs[1] != ""
    ensures FlatSegments(segs, msg) == Join(segs[1..|segs| - 1] + [msg], '.')
    ensures |segs| == 2 ==> FlatSegments(segs, msg) == msg
  {
    var inner := segs[1..|segs| - 1];
    assert inner == [] || inner[0] == segs[1];
    assert DropLeadingEmpty(inner) == inner;
    if |segs| == 2 {
      assert inner + [msg] == [msg];
    }
  }

  /** A field two levels down, `S.a.b`, is reported under its parent: `a.` and the message. */
  lemma FlatMessageNested(s: string, a: string, b: string, msg: string)
    requires '.' !in s && '.' !in a && '.' !in b
    requires a != ""
    ensures FlatMessage(s + "." + a + "." + b, msg) == a + "." + msg
  {
    var ns := s + "." + a + "." + b;
    SplitThree(s, a, b);
    var inner := [s, a, b][1..2];
    assert inner + [msg] == [a, msg] by {
      assert |inner| == 1 && inner[0] == a;
    }
    calc {
      FlatMessage(ns, msg);
      { FlatMessagePlain(ns, msg); }
      Join(inner + [msg], '.');
      Join([a, msg], '.');
      { JoinCons(a, [msg], '.'); }
      a + "." + msg;
    }
  }

  lemma SplitThree(s: string, a: string, b: string)
    requires '.' !in s && '.' !in a && '.' !in b
    ensures Split(s + "." + a + "." + b, '.') == [s, a, b]
  {
    var parts := [s, a, b];
    assert Join(parts, '.') == s + "." + a + "." + b by {
      JoinCons(s, [a, b], '.');
      JoinCons(a, [b], '.');
    }
    assert '.' !in parts[0] && '.' !in parts[1] && '.' !in parts[2];
    SplitJoin(parts, '.');
  }

  /** Under a non-empty prefix every key and the message are joined with dots. */
  lemma {:induction false} JoinPathUnderPrefix(prefix: string, keys: seq<string>, m: string)
    requires prefix != ""
    ensures JoinPath(prefix, keys, m) == prefix + "." + Join(keys + [m], '.')
    decreases |keys|
  {
    if keys != [] {
      var k, rest := keys[0], Join(keys[1..] + [m], '.');
      var p := prefix + "." + k;
      assert UnionPrefix(prefix, k) == p;
      calc {
        JoinPath(prefix, keys, m);
        JoinPath(p, keys[1..], m);
        { JoinPathUnderPrefix(p, keys[1..], m); }
        p + "." + rest;
        { assert p + "." + rest == prefix + "." + (k + "." + rest); }
        prefix + "." + (k + "." + rest);
        { assert keys + [m] == [k] + (keys[1..] + [m]);
          JoinCons(k, keys[1..] + [m], '.'); }
        prefix + "." + Join(keys + [m], '.');
      }
    }
  }

  /** From the empty prefix, the path is the dot-join of the keys (leading empty ones dropped) and the message. */
  lemma {:induction false} JoinPathFromRoot(keys: seq<string>, m: string)
    ensures JoinPath("", keys, m) == Join(DropLeadingEmpty(keys) + [m], '.')
    decreases |keys|
  {
    if keys != [] {
      if keys[0] == "" {
        JoinPathFromRoot(keys[1..], m);
      } else {
        JoinPathUnderPrefix(keys[0], keys[1..], m);
        assert keys + [m] == [keys[0]] + (keys[1..] + [m]);
        JoinCons(keys[0], keys[1..] + [m], '.');
      }
    }
  }

  // ---------------------------------------------------------------------------
  // addValueToMap

  /** The first segment of a field path. */
  function Head(key: string): string
  {
    SplitN2(key, '.')[0]
  }

  /** The field path after its first segment. */
  function Tail(key: string): string
    requires '.' in key
  {
    SplitN2(key, '.')[1]
  }

  /** A dotted field path splits into its first segment and the segments of its tail. */
  lemma SplitHeadTail(key: string)
    requires '.' in key
    ensures Split(key, '.') == [Head(key)] + Split(Tail(key), '.')
  {
    SplitFirst(key, '.');
  }

  /** Dropping the first and last segments of `[h] + path` drops the last one of `path`. */
  lemma InnerSegments(segs: seq<string>, h: string, path: seq<string>)
    requires path != [] && segs == [h] + path
    ensures |segs| >= 2 && segs[1..|segs| - 1] == path[..|path| - 1]
  {
  }

  /** What `addValueToMap` returns for the one-entry map `{key: msg}`. */
  function Single(key: string, msg: string): (r: map<string, ErrTree>)
    ensures r.Keys == {Head(key)}
    decreases |key|
  {
    var parts := SplitN2(key, '.');
    if |parts| == 1 then map[key := Leaf(msg)]
    else map[parts[0] := Node(Single(parts[1], msg))]
  }

  /** One iteration of `addValueToMap`'s loop, on the map built so far. */
  function AddEntry(res: map<string, ErrTree>, key: string, msg: string): Outcome<map<string, ErrTree>>
  {
    var parts := SplitN2(key, '.');
    if |parts| == 1 then Done(res[key := Leaf(msg)])
    else if parts[0] !in res then Done(res[parts[0] := Node(Single(parts[1], msg))])
    else match res[parts[0]]
      case Node(c) => Done(res[parts[0] := Node(c + Single(parts[1], msg))])
      case Leaf(_) => Panic(AssertionPanic)
  }

  /** `addValueToMap` on a map whose entries are visited in the order of `entries`. */
  function AddAll(entries: seq<(string, string)>): Outcome<map<string, ErrTree>>
  {
    if entries == [] then Done(map[])
    else match AddAll(entries[..|entries| - 1])
      case Panic(why) => Panic(why)
      case Done(m) => AddEntry(m, entries[|entries| - 1].0, entries[|entries| - 1].1)
  }

  /** The entries of `fields`, in the order `order` visits its keys. */
  function Entries(fields: map<string, string>, order: seq<string>): seq<(string, string)>
    requires forall k :: 0 <= k < |order| ==> order[k] in fields
  {
    seq(|order|, i requires 0 <= i < |order| => (order[i], fields[order[i]]))
  }

  /** `order` visits every key of `keys` exactly once. */
  ghost predicate IsEnumeration(order: seq<string>, keys: set<string>)
  {
    && (forall k :: 0 <= k < |order| ==> order[k] in keys)
    && (forall x :: x in keys ==> x in order)
    && (forall i, j :: 0 <= i < j < |order| ==> order[i] != order[j])
    && |order| == |keys|
  }

  /** Some order in which a Go `range` may visit `keys`. */
  ghost function Enumerate(keys: set<string>): (order: seq<string>)
    ensures IsEnumeration(order, keys)
  {
    if keys == {} then []
    else
      var x :| x in keys;
      [x] + Enumerate(keys - {x})
  }

  /** Total length of the keys; it shrinks on the recursive call of `addValueToMap`. */
  ghost function KeyWeight(keys: set<string>): nat
  {
    if keys == {} then 0
    else
      var x :| x in keys;
      |x| + KeyWeight(keys - {x})
  }

  lemma {:induction false} KeyWeightBound(keys: set<string>, k: string)
    requires k in keys
    ensures |k| <= KeyWeight(keys)
    decreases keys
  {
    var x :| x in keys && KeyWeight(keys) == |x| + KeyWeight(keys - {x});
    if x != k {
      assert k in keys - {x};
      KeyWeightBound(keys - {x}, k);
    } else {
      assert KeyWeight(keys - {x}) >= 0;
    }
  }

  lemma SingletonEnumeration(order: seq<string>, x: string)
    requires IsEnumeration(order, {x})
    ensures order == [x]
  {
    assert order[0] in {x};
  }

  lemma EntriesAppend(fields: map<string, string>, o1: seq<string>, o2: seq<string>)
    requires forall k :: 0 <= k < |o1| ==> o1[k] in fields
    requires forall k :: 0 <= k < |o2| ==> o2[k] in fields
    ensures Entries(fields, o1 + o2) == Entries(fields, o1) + Entries(fields, o2)
  {
  }

  /** A non-empty sequence is its front followed by its last element. */
  lemma SnocParts<T>(s: seq<T>)
    requires s != []
    ensures s == s[..|s| - 1] + [s[|s| - 1]]
  {
  }

  /** Visiting one more entry is one more step of the loop, unless it already panicked. */
  lemma AddAllSnoc(e: seq<(string, string)>, x: (string, string))
    ensures AddAll(e + [x]) == match AddAll(e)
      case Panic(why) => Panic(why)
      case Done(m) => AddEntry(m, x.0, x.1)
  {
    assert (e + [x])[..|e|] == e;
  }

  /** A panic ends `addValueToMap`: whatever entries come after it, the outcome stays that panic. */
  lemma {:induction false} AddAllPanicStays(e1: seq<(string, string)>, e2: seq<(string, string)>)
    requires AddAll(e1).Panic?
    ensures AddAll(e1 + e2) == AddAll(e1)
    decreases |e2|
  {
    if e2 != [] {
      var init := e2[..|e2| - 1];
      assert e1 + e2 == (e1 + init) + [e2[|e2| - 1]];
      AddAllPanicStays(e1, init);
      AddAllSnoc(e1 + init, e2[|e2| - 1]);
    } else {
      assert e1 + e2 == e1;
    }
  }

  lemma AddEntryBare(res: map<string, ErrTree>, key: string, msg: string)
    requires '.' !in key
    ensures AddEntry(res, key, msg) == Done(res[key := Leaf(msg)])
  {
  }

  lemma AddEntryNested(res: map<string, ErrTree>, key: string, msg: string)
    requires '.' in key
    ensures Head(key) !in res ==> AddEntry(res, key, msg) == Done(res[Head(key) := Node(Single(Tail(key), msg))])
    ensures Head(key) in res && res[Head(key)].Node? ==>
      AddEntry(res, key, msg) == Done(res[Head(key) := Node(res[Head(key)].children + Single(Tail(key), msg))])
    ensures Head(key) in res && res[Head(key)].Leaf? ==> AddEntry(res, key, msg) == Panic(AssertionPanic)
  {
  }

  /** A one-entry map: a dot-free key maps straight to its message, `h.rest` maps `h` to the tree for `rest`. */
  lemma AddAllOne(key: string, msg: string)
    ensures AddAll([(key, msg)]) == Done(Single(key, msg))
    ensures '.' !in key ==> AddAll([(key, msg)]) == Done(map[key := Leaf(msg)])
    ensures '.' in key ==> AddAll([(key, msg)]) == Done(map[Head(key) := Node(Single(Tail(key), msg))])
  {
    AddAllSnoc([], (key, msg));
    assert [] + [(key, msg)] == [(key, msg)];
  }

  /** The loop of `addValueToMap` after the recursive call: merge `rm` into the map under `h`. */
  method MergeInto(acc: map<string, ErrTree>, h: string, rm: map<string, ErrTree>)
    returns (res: Outcome<map<string, ErrTree>>)
    requires h in acc && rm != map[]
    ensures acc[h].Leaf? ==> res == Panic(AssertionPanic)
    ensures acc[h].Node? ==> res == Done(acc[h := Node(acc[h].children + rm)])
  {
    var cur := acc;
    var pending := rm.Keys;
    ghost var added: map<string, ErrTree> := map[];
    if acc[h].Node? {
      MapUpdateSame(acc, h, acc[h].children, added);
    }
    while pending != {}
      invariant pending <= rm.Keys
      invariant added.Keys == rm.Keys - pending
      invariant forall k :: k in added ==> added[k] == rm[k]
      invariant acc[h].Leaf? ==> cur == acc && pending == rm.Keys
      invariant acc[h].Node? ==> cur == acc[h := Node(acc[h].children + added)]
      decreases pending
    {
      var k :| k in pending;
      match cur[h]
      case Leaf(_) =>
        res := Panic(AssertionPanic);
        return;
      case Node(c) =>
        UnionUpdate(acc[h].children, added, k, rm[k]);
        MapUpdateTwice(acc, h, Node(c), Node(c[k := rm[k]]));
        cur := cur[h := Node(c[k := rm[k]])];
        added := added[k := rm[k]];
        pending := pending - {k};
    }
    MapsAgree(added, rm);
    res := Done(cur);
  }

  /** Updating the right operand of a map union updates the union. */
  lemma UnionUpdate<K, V>(base: map<K, V>, added: map<K, V>, k: K, v: V)
    ensures (base + added)[k := v] == base + added[k := v]
  {
  }

  /** Storing back the children a node already has, united with nothing, changes nothing. */
  lemma MapUpdateSame(acc: map<string, ErrTree>, h: string, c: map<string, ErrTree>, added: map<string, ErrTree>)
    requires h in acc && acc[h] == Node(c) && added == map[]
    ensures acc[h := Node(c + added)] == acc
  {
    assert c + added == c;
  }

  /** A second update of the same key overrides the first. */
  lemma MapUpdateTwice<K, V>(m: map<K, V>, k: K, v: V, w: V)
    ensures m[k := v][k := w] == m[k := w]
  {
  }

  /** Two maps with the same keys and the same value at every key are equal. */
  lemma MapsAgree<K, V>(a: map<K, V>, b: map<K, V>)
    requires a.Keys == b.Keys
    requires forall k :: k in a ==> a[k] == b[k]
    ensures a == b
  {
  }

  /** Part way through a `range` over `fields`: `order` visited so far, `todo` still to come. */
  ghost predicate Visiting(fields: map<string, string>, order: seq<string>, todo: set<string>)
  {
    && todo <= fields.Keys
    && (forall k :: 0 <= k < |order| ==> order[k] in fields && order[k] !in todo)
    && (forall x :: x in fields ==> x in todo || x in order)
    && (forall i, j :: 0 <= i < j < |order| ==> order[i] != order[j])
    && |order| + |todo| == |fields|
  }

  lemma VisitNext(fields: map<string, string>, order: seq<string>, todo: set<string>, field: string)
    requires Visiting(fields, order, todo) && field in todo
    ensures Visiting(fields, order + [field], todo - {field})
    ensures Entries(fields, order + [field]) == Entries(fields, order) + [(field, fields[field])]
  {
  }

  lemma VisitDone(fields: map<string, string>, order: seq<string>)
    requires Visiting(fields, order, {})
    ensures IsEnumeration(order, fields.Keys)
  {
  }

  /** The order a `range` interrupted by a panic would have gone on to visit. */
  lemma VisitRest(fields: map<string, string>, order: seq<string>, todo: set<string>)
    requires Visiting(fields, order, todo)
    ensures IsEnumeration(order + Enumerate(todo), fields.Keys)
    ensures Entries(fields, order + Enumerate(todo)) == Entries(fields, order) + Entries(fields, Enumerate(todo))
  {
    var rest := Enumerate(todo);
    var all := order + rest;
    forall i, j | 0 <= i < j < |all| ensures all[i] != all[j] {
      if j < |order| {
      } else if i < |order| {
        assert all[j] == rest[j - |order|];
      } else {
        assert all[i] == rest[i - |order|] && all[j] == rest[j - |order|];
      }
    }
    EntriesAppend(fields, order, rest);
  }

  /**
   * `addValueToMap`: each key is split at its first dot; a dot-free key is
   * stored with its message, and `h.rest` stores under `h` the map built
   * recursively for `{rest: msg}`, merged into an existing map under `h`.
   */
  method AddValueToMap(fields: map<string, string>) returns (res: Outcome<map<string, ErrTree>>, ghost order: seq<string>)
    ensures IsEnumeration(order, fields.Keys)
    ensures res == AddAll(Entries(fields, order))
    ensures res.Panic? ==> res == Panic(AssertionPanic)
    ensures res.Done? ==> res.value.Keys == FirstSegments(fields)
    decreases KeyWeight(fields.Keys), 1
  {
    var acc: map<string, ErrTree> := map[];
    var todo := fields.Keys;
    order := [];
    while todo != {}
      invariant Visiting(fields, order, todo)
      invariant AddAll(Entries(fields, order)) == Done(acc)
      decreases todo
    {
      var field :| field in todo;
      VisitNext(fields, order, todo, field);
      AddAllSnoc(Entries(fields, order), (field, fields[field]));
      order, todo := order + [field], todo - {field};
      KeyWeightBound(fields.Keys, field);
      var step := AddField(acc, field, fields[field]);
      if step.Panic? {
        res := step;
        VisitRest(fields, order, todo);
        AddAllPanicStays(Entries(fields, order), Entries(fields, Enumerate(todo)));
        order := order + Enumerate(todo);
        AddAllPanicReason(Entries(fields, order));
        return;
      }
      acc := step.value;
    }
    VisitDone(fields, order);
    res := Done(acc);
    AddAllKeys(Entries(fields, order));
    HeadsEntries(fields, order);
  }

  /** The body of `addValueToMap`'s loop for one key `field` with message `err`. */
  method AddField(acc: map<string, ErrTree>, field: string, err: string) returns (res: Outcome<map<string, ErrTree>>)
    ensures res == AddEntry(acc, field, err)
    decreases |field|, 0
  {
    var fieldArr := SplitN2(field, '.');
    if |fieldArr| > 1 {
      var newFields := map[fieldArr[1] := err];
      assert KeyWeight(newFields.Keys) == |fieldArr[1]| by {
        assert newFields.Keys == {fieldArr[1]};
      }
      var returnMap, sub := AddValueToMap(newFields);
      assert returnMap == Done(Single(fieldArr[1], err)) by {
        EntriesSingle(fieldArr[1], err, sub);
        AddAllOne(fieldArr[1], err);
      }
      var rm := returnMap.value;
      assert Head(fieldArr[1]) in rm;
      if fieldArr[0] in acc {
        res := MergeInto(acc, fieldArr[0], rm);
        assert res == AddEntry(acc, field, err) by {
          AddEntryNested(acc, field, err);
        }
      } else {
        res := Done(acc[fieldArr[0] := Node(rm)]);
        assert res == AddEntry(acc, field, err) by {
          AddEntryNested(acc, field, err);
        }
      }
    } else {
      AddEntryBare(acc, field, err);
      res := Done(acc[field := Leaf(err)]);
    }
  }

  // ---------------------------------------------------------------------------
  // What addValueToMap builds

  /** The first segments of the visited keys. */
  ghost function Heads(entries: seq<(string, string)>): set<string>
  {
    if entries == [] then {} else Heads(entries[..|entries| - 1]) + {Head(entries[|entries| - 1].0)}
  }

  /** The first segments of the keys of `fields`. */
  function FirstSegments(fields: map<string, string>): set<string>
  {
    set k | k in fields :: Head(k)
  }

  /** The first segments met along an enumeration are those of the whole map. */
  lemma {:induction false} HeadsEntries(fields: map<string, string>, order: seq<string>)
    requires IsEnumeration(order, fields.Keys)
    ensures Heads(Entries(fields, order)) == FirstSegments(fields)
  {
    HeadsAlong(fields, order);
    forall h | h in FirstSegments(fields) ensures h in set k | k in order :: Head(k) {
      var k :| k in fields && Head(k) == h;
      assert k in order;
    }
  }

  /** The first segments met along `order`. */
  lemma {:induction false} HeadsAlong(fields: map<string, string>, order: seq<string>)
    requires forall k :: 0 <= k < |order| ==> order[k] in fields
    ensures Heads(Entries(fields, order)) == set k | k in order :: Head(k)
    decreases |order|
  {
    if order != [] {
      var init, x := order[..|order| - 1], order[|order| - 1];
      HeadsAlong(fields, init);
      var e := Entries(fields, order);
      assert e[..|e| - 1] == Entries(fields, init) && e[|e| - 1].0 == x;
      SnocParts(order);
      HeadSetSnoc(init, x);
    }
  }

  lemma HeadSetSnoc(init: seq<string>, x: string)
    ensures (set k | k in init + [x] :: Head(k)) == (set k | k in init :: Head(k)) + {Head(x)}
  {
  }

  /** The only panic of `addValueToMap` is the failed type assertion. */
  lemma {:induction false} AddAllPanicReason(entries: seq<(string, string)>)
    ensures AddAll(entries).Panic? ==> AddAll(entries) == Panic(AssertionPanic)
    decreases |entries|
  {
    if entries != [] {
      AddAllPanicReason(entries[..|entries| - 1]);
    }
  }

  /** The keys of the built map are exactly the first segments of the input keys. */
  lemma {:induction false} AddAllKeys(entries: seq<(string, string)>)
    requires AddAll(entries).Done?
    ensures AddAll(entries).value.Keys == Heads(entries)
    decreases |entries|
  {
    if entries != [] {
      var init := entries[..|entries| - 1];
      var last := entries[|entries| - 1];
      AddAllKeys(init);
      if '.' in last.0 {
        AddEntryNested(AddAll(init).value, last.0, last.1);
      } else {
        AddEntryBare(AddAll(init).value, last.0, last.1);
      }
    }
  }

  /** A map built without panicking holds a message under `h` only if some dot-free key `h` was visited. */
  lemma {:induction false} LeafHasBareKey(entries: seq<(string, string)>, h: string)
    requires AddAll(entries).Done? && h in AddAll(entries).value
    requires AddAll(entries).value[h].Leaf?
    ensures exists i :: 0 <= i < |entries| && entries[i].0 == h && '.' !in h
    decreases |entries|
  {
    var init := entries[..|entries| - 1];
    var last := entries[|entries| - 1];
    if last.0 == h && '.' !in h {
      assert entries[|entries| - 1].0 == h;
    } else {
      assert AddAll(init).Done? && h in AddAll(init).value && AddAll(init).value[h].Leaf? by {
        var m := AddAll(init).value;
        if '.' in last.0 {
          AddEntryNested(m, last.0, last.1);
        } else {
          AddEntryBare(m, last.0, last.1);
        }
      }
      LeafHasBareKey(init, h);
      var i :| 0 <= i < |init| && init[i].0 == h && '.' !in h;
      assert entries[i] == init[i];
    }
  }

  /**
   * Once a dot-free key `h` has been visited, `h` holds a message for as long
   * as nothing panics; when no later entry has the key `h` again (as in the
   * entries of a map), it is the message stored for `h` itself.
   */
  lemma {:induction false} BareKeyStaysLeaf(entries: seq<(string, string)>, i: nat)
    requires i < |entries| && '.' !in entries[i].0
    requires AddAll(entries).Done?
    ensures entries[i].0 in AddAll(entries).value && AddAll(entries).value[entries[i].0].Leaf?
    ensures (forall j :: i < j < |entries| ==> entries[j].0 != entries[i].0) ==>
      AddAll(entries).value[entries[i].0] == Leaf(entries[i].1)
    decreases |entries|
  {
    var h := entries[i].0;
    var init := entries[..|entries| - 1];
    var last := entries[|entries| - 1];
    assert AddAll(init).Done? && AddAll(entries) == AddEntry(AddAll(init).value, last.0, last.1);
    var m := AddAll(init).value;
    if i == |entries| - 1 {
      AddEntryBare(m, h, last.1);
    } else {
      assert init[i] == entries[i];
      BareKeyStaysLeaf(init, i);
      LeafStep(m, last.0, last.1, h);
      if forall j :: i < j < |entries| ==> entries[j].0 != entries[i].0 {
        assert forall j :: i < j < |init| ==> init[j] == entries[j];
      }
    }
  }

  /** One loop step that does not panic keeps a message under a dot-free key, and replaces it only for that key. */
  lemma LeafStep(m: map<string, ErrTree>, key: string, msg: string, h: string)
    requires '.' !in h && h in m && m[h].Leaf?
    ensures AddEntry(m, key, msg).Done? ==>
      h in AddEntry(m, key, msg).value && AddEntry(m, key, msg).value[h].Leaf?
    ensures AddEntry(m, key, msg).Done? && key != h ==> AddEntry(m, key, msg).value[h] == m[h]
    ensures AddEntry(m, key, msg).Done? && key == h ==> AddEntry(m, key, msg).value[h] == Leaf(msg)
  {
    if '.' in key {
      AddEntryNested(m, key, msg);
    } else {
      AddEntryBare(m, key, msg);
    }
  }

  /**
   * A dot-free key `h` is visited before a key `h.rest`: the type assertion
   * of line 97 then meets a message instead of a map.
   */
  ghost predicate BareBeforeNested(entries: seq<(string, string)>)
  {
    exists i, j :: 0 <= i < j < |entries| && '.' !in entries[i].0 && '.' in entries[j].0
      && entries[i].0 == Head(entries[j].0)
  }

  /**
   * `addValueToMap` panics exactly when a dot-free key is visited before a
   * key that nests under it; which Go map order is used therefore decides
   * whether it panics.
   */
  lemma {:induction false} AddAllPanics(entries: seq<(string, string)>)
    ensures AddAll(entries).Panic? <==> BareBeforeNested(entries)
    decreases |entries|
  {
    if entries == [] {
      return;
    }
    var init := entries[..|entries| - 1];
    var last := entries[|entries| - 1];
    var n := |entries| - 1;
    AddAllPanics(init);
    if BareBeforeNested(init) {
      assert BareBeforeNested(entries) by {
        var i, j :| 0 <= i < j < |init| && '.' !in init[i].0 && '.' in init[j].0 && init[i].0 == Head(init[j].0);
        assert entries[i] == init[i] && entries[j] == init[j];
      }
    } else {
      var m := AddAll(init).value;
      var h := Head(last.0);
      if '.' in last.0 && h in m && m[h].Leaf? {
        assert AddAll(entries).Panic? by {
          AddEntryNested(m, last.0, last.1);
        }
        assert BareBeforeNested(entries) by {
          LeafHasBareKey(init, h);
          var i :| 0 <= i < |init| && init[i].0 == h && '.' !in h;
          assert entries[i] == init[i];
          assert 0 <= i < n < |entries| && '.' !in entries[i].0 && '.' in entries[n].0
            && entries[i].0 == Head(entries[n].0);
        }
      } else {
        assert AddAll(entries).Done? by {
          if '.' in last.0 {
            AddEntryNested(m, last.0, last.1);
          } else {
            AddEntryBare(m, last.0, last.1);
          }
        }
        assert !BareBeforeNested(entries) by {
          SnocParts(entries);
          NoNewClash(init, last, m);
        }
      }
    }
  }

  /** Visiting one more key that meets no message under its head adds no clash. */
  lemma NoNewClash(init: seq<(string, string)>, last: (string, string), m: map<string, ErrTree>)
    requires !BareBeforeNested(init)
    requires AddAll(init) == Done(m)
    requires !('.' in last.0 && Head(last.0) in m && m[Head(last.0)].Leaf?)
    ensures !BareBeforeNested(init + [last])
  {
    var entries := init + [last];
    var n := |init|;
    forall i, j | 0 <= i < j < |entries| && '.' !in entries[i].0 && '.' in entries[j].0
      ensures entries[i].0 != Head(entries[j].0)
    {
      assert init[i] == entries[i];
      if j < n {
        assert init[j] == entries[j];
      } else {
        BareKeyStaysLeaf(init, i);
      }
    }
  }

  lemma HeadTailOf(h: string, rest: string)
    requires '.' !in h
    ensures '.' in h + "." + rest
    ensures SplitN2(h + "." + rest, '.') == [h, rest]
    ensures Head(h + "." + rest) == h && Tail(h + "." + rest) == rest
  {
    var s := h + "." + rest;
    assert forall k :: 0 <= k < |h| ==> s[k] == h[k];
    assert s[|h|] == '.';
    assert IndexOf(s, '.') == |h|;
    assert s[..|h|] == h && s[|h| + 1..] == rest;
  }

  /** The tree for a path of two dot-free segments. */
  lemma SingleOfPair(a: string, x: string, m: string)
    requires '.' !in a && '.' !in x
    ensures Single(x, m) == map[x := Leaf(m)]
    ensures Single(a + "." + x, m) == map[a := Node(map[x := Leaf(m)])]
  {
    HeadTailOf(a, x);
  }

  /** Two paths under the same head: the second one's tree is merged into the first's, one level down. */
  lemma SameHeadPair(h: string, r1: string, r2: string, m1: string, m2: string)
    requires '.' !in h
    ensures AddAll([(h + "." + r1, m1), (h + "." + r2, m2)])
      == Done(map[h := Node(Single(r1, m1) + Single(r2, m2))])
  {
    var k1, k2 := h + "." + r1, h + "." + r2;
    var first := map[h := Node(Single(r1, m1))];
    var both := Single(r1, m1) + Single(r2, m2);
    assert AddAll([(k1, m1)]) == Done(first) by {
      HeadTailOf(h, r1);
      AddAllOne(k1, m1);
    }
    assert AddAll([(k1, m1), (k2, m2)]) == AddEntry(first, k2, m2) by {
      assert [(k1, m1), (k2, m2)] == [(k1, m1)] + [(k2, m2)];
      AddAllSnoc([(k1, m1)], (k2, m2));
    }
    MergeUnderHead(h, r1, r2, m1, m2);
  }

  /** A path under the head of a one-entry tree merges its tree into that entry's. */
  lemma MergeUnderHead(h: string, r1: string, r2: string, m1: string, m2: string)
    requires '.' !in h
    ensures AddEntry(map[h := Node(Single(r1, m1))], h + "." + r2, m2)
      == Done(map[h := Node(Single(r1, m1) + Single(r2, m2))])
  {
    var first := map[h := Node(Single(r1, m1))];
    var both := Single(r1, m1) + Single(r2, m2);
    HeadTailOf(h, r2);
    assert h in first && first[h] == Node(Single(r1, m1));
    MapUpdateTwice(map[], h, Node(Single(r1, m1)), Node(both));
  }

  /** Two paths under the same head with different dot-free second segments end up side by side. */
  lemma MergeSiblings(h: string, a: string, b: string, m1: string, m2: string)
    requires '.' !in h && '.' !in a && '.' !in b && a != b
    ensures AddAll([(h + "." + a, m1), (h + "." + b, m2)])
      == Done(map[h := Node(map[a := Leaf(m1), b := Leaf(m2)])])
  {
    SameHeadPair(h, a, b, m1, m2);
    SingleOfPair(h, a, m1);
    SingleOfPair(h, b, m2);
    assert map[a := Leaf(m1)] + map[b := Leaf(m2)] == map[a := Leaf(m1), b := Leaf(m2)];
  }

  /**
   * The merge of line 97 is one level deep: under a shared head, the subtree of
   * a later path replaces the one of an earlier path with the same second segment,
   * so `h.a.x` is lost once `h.a.y` is visited.
   */
  lemma ShallowMerge(h: string, a: string, x: string, y: string, m1: string, m2: string)
    requires '.' !in h && '.' !in a && '.' !in x && '.' !in y
    ensures AddAll([(h + "." + (a + "." + x), m1), (h + "." + (a + "." + y), m2)])
      == Done(map[h := Node(map[a := Node(map[y := Leaf(m2)])])])
  {
    SameHeadPair(h, a + "." + x, a + "." + y, m1, m2);
    SingleOfPair(a, x, m1);
    SingleOfPair(a, y, m2);
    assert map[a := Node(map[x := Leaf(m1)])] + map[a := Node(map[y := Leaf(m2)])] == map[a := Node(map[y := Leaf(m2)])];
  }

  /** The panic depends on the visiting order: a message under `h` and a path below `h`. */
  lemma OrderDecidesPanic(h: string, a: string, m1: string, m2: string)
    requires '.' !in h && '.' !in a
    ensures AddAll([(h, m1), (h + "." + a, m2)]) == Panic(AssertionPanic)
    ensures AddAll([(h + "." + a, m2), (h, m1)]) == Done(map[h := Leaf(m1)])
  {
    var k := h + "." + a;
    HeadTailOf(h, a);
    assert [(h, m1), (k, m2)] == [(h, m1)] + [(k, m2)];
    assert [(k, m2), (h, m1)] == [(k, m2)] + [(h, m1)];
    AddAllOne(h, m1);
    AddAllOne(k, m2);
    AddAllSnoc([(h, m1)], (k, m2));
    AddAllSnoc([(k, m2)], (h, m1));
    AddEntryNested(map[h := Leaf(m1)], k, m2);
    AddEntryBare(map[h := Node(Single(a, m2))], h, m1);
    assert map[h := Node(Single(a, m2))][h := Leaf(m1)] == map[h := Leaf(m1)];
  }

  // ---------------------------------------------------------------------------
  // removeTopStruct

  /** The map `removeTopStruct` builds from the entries, visited in order: each re-keyed by its tail. */
  function StripAll(entries: seq<(string, string)>): map<string, string>
    requires forall i :: 0 <= i < |entries| ==> '.' in entries[i].0
  {
    if entries == [] then map[]
    else StripAll(entries[..|entries| - 1])[Tail(entries[|entries| - 1].0) := entries[|entries| - 1].1]
  }

  /**
   * `removeTopStruct` re-keys every entry by the text after its first dot and
   * keeps its message; when several keys share that text, the message of the
   * one visited last is kept.
   */
  lemma {:induction false} StripAllRekeys(entries: seq<(string, string)>, i: nat)
    requires forall i :: 0 <= i < |entries| ==> '.' in entries[i].0
    requires i < |entries|
    ensures Tail(entries[i].0) in StripAll(entries)
    ensures (forall j :: i < j < |entries| ==> Tail(entries[j].0) != Tail(entries[i].0)) ==>
      StripAll(entries)[Tail(entries[i].0)] == entries[i].1
    decreases |entries|
  {
    if i < |entries| - 1 {
      var init := entries[..|entries| - 1];
      assert init[i] == entries[i];
      StripAllRekeys(init, i);
      assert forall j :: i < j < |init| ==> init[j] == entries[j];
    }
  }

  /** Every key of the stripped map is the tail of some entry. */
  lemma {:induction false} StripAllKeys(entries: seq<(string, string)>, r: string)
    requires forall i :: 0 <= i < |entries| ==> '.' in entries[i].0
    requires r in StripAll(entries)
    ensures exists i :: 0 <= i < |entries| && Tail(entries[i].0) == r && StripAll(entries)[r] == entries[i].1
    decreases |entries|
  {
    var n := |entries| - 1;
    if Tail(entries[n].0) != r {
      var init := entries[..n];
      StripAllKeys(init, r);
      var i :| 0 <= i < |init| && Tail(init[i].0) == r && StripAll(init)[r] == init[i].1;
      assert init[i] == entries[i];
    }
  }

  /** Re-keying one more visited field extends the stripped map by that field's tail. */
  lemma StripNext(fields: map<string, string>, visit: seq<string>, field: string)
    requires field in fields && '.' in field
    requires forall i :: 0 <= i < |visit| ==> visit[i] in fields && '.' in visit[i]
    ensures forall i :: 0 <= i < |visit + [field]| ==> '.' in (visit + [field])[i]
    ensures StripAll(Entries(fields, visit + [field]))
      == StripAll(Entries(fields, visit))[Tail(field) := fields[field]]
  {
    var e := Entries(fields, visit + [field]);
    assert e[..|e| - 1] == Entries(fields, visit);
  }

  /**
   * `removeTopStruct`: the map re-keyed by `StripAll`, in the order the first
   * `range` visits `fields`, handed to `addValueToMap`.  A key without a dot
   * makes `fieldArr[1]` index out of range.
   */
  method RemoveTopStruct(fields: map<string, string>)
    returns (res: Outcome<map<string, ErrTree>>, ghost visit: seq<string>, ghost lower: map<string, string>, ghost order: seq<string>)
    ensures IsEnumeration(visit, fields.Keys)
    ensures (exists k :: k in fields && '.' !in k) ==> res == Panic(IndexPanic)
    ensures (forall k :: k in fields ==> '.' in k) ==>
      && lower == StripAll(Entries(fields, visit))
      && IsEnumeration(order, lower.Keys)
      && res == AddAll(Entries(lower, order))
  {
    var lowerMap: map<string, string> := map[];
    var todo := fields.Keys;
    visit := [];
    while todo != {}
      invariant Visiting(fields, visit, todo)
      invariant forall i :: 0 <= i < |visit| ==> '.' in visit[i]
      invariant lowerMap == StripAll(Entries(fields, visit))
      decreases todo
    {
      var field :| field in todo;
      VisitNext(fields, visit, todo, field);
      var fieldArr := SplitN2(field, '.');
      if |fieldArr| < 2 {
        VisitRest(fields, visit, todo);
        assert field in fields && '.' !in field;
        res, visit, lower, order := Panic(IndexPanic), visit + Enumerate(todo), lowerMap, [];
        return;
      }
      StripNext(fields, visit, field);
      lowerMap := lowerMap[fieldArr[1] := fields[field]];
      visit, todo := visit + [field], todo - {field};
    }
    VisitDone(fields, visit);
    lower := lowerMap;
    res, order := AddValueToMap(lowerMap);
  }

  // ---------------------------------------------------------------------------
  // handleErrMap

  /** Every map in the tree has at least one entry, as in the tree built for one field path (`SingleShape`). */
  ghost predicate Dense(t: ErrTree)
  {
    match t
    case Leaf(_) => true
    case Node(c) => c != map[] && forall k :: k in c ==> Dense(c[k])
  }

  /** `path` leads from the map `t` through nested maps to a message. */
  ghost predicate IsLeafPath(t: ErrTree, path: seq<string>)
    decreases |path|
  {
    && |path| > 0 && t.Node? && path[0] in t.children
    && (if |path| == 1 then t.children[path[0]].Leaf?
        else IsLeafPath(t.children[path[0]], path[1..]))
  }

  /** The message at the end of a leaf path. */
  ghost function LeafAt(t: ErrTree, path: seq<string>): string
    requires IsLeafPath(t, path)
    decreases |path|
  {
    if |path| == 1 then t.children[path[0]].msg else LeafAt(t.children[path[0]], path[1..])
  }

  /**
   * `handleErrMap`: descend into the first child the map's iteration yields;
   * at a message, return the prefix joined with the message, dropping the
   * message's own key.  On a value that is not a map (line 147) Go formats the
   * failed assertion's nil map, and on an empty map (line 149) the empty map;
   * both print as "map[]".
   */
  method HandleErrMap(keyPrefix: string, errRes: ErrTree) returns (r: string, ghost path: seq<string>)
    ensures errRes.Leaf? ==> r == UnionPrefix(keyPrefix, EmptyMapText)
    ensures errRes == Node(map[]) ==> r == UnionPrefix(keyPrefix, EmptyMapText)
    ensures Dense(errRes) && errRes.Node? ==>
      IsLeafPath(errRes, path) && r == JoinPath(keyPrefix, path[..|path| - 1], LeafAt(errRes, path))
    decreases errRes
  {
    match errRes
    case Leaf(_) =>
      r, path := UnionPrefix(keyPrefix, EmptyMapText), [];
    case Node(v) =>
      if v == map[] {
        r, path := UnionPrefix(keyPrefix, EmptyMapText), [];
      } else {
        var key :| key in v;
        match v[key]
        case Node(_) =>
          ghost var sub;
          r, sub := HandleErrMap(UnionPrefix(keyPrefix, key), v[key]);
          path := [key] + sub;
          if Dense(errRes) {
            assert path[1..] == sub;
            assert path[..|path| - 1] == [key] + sub[..|sub| - 1];
          }
        case Leaf(value) =>
          r, path := UnionPrefix(keyPrefix, value), [key];
      }
  }

  /** The tree built for one field path is dense and holds a single leaf path: the path's segments. */
  lemma {:induction false} SingleShape(key: string, msg: string)
    ensures Dense(Node(Single(key, msg)))
    ensures IsLeafPath(Node(Single(key, msg)), Split(key, '.'))
    ensures LeafAt(Node(Single(key, msg)), Split(key, '.')) == msg
    decreases |key|
  {
    var parts := SplitN2(key, '.');
    if |parts| == 2 {
      SplitFirst(key, '.');
      SingleShape(parts[1], msg);
      var segs := Split(key, '.');
      assert segs[1..] == Split(parts[1], '.');
    }
  }

  lemma {:induction false} SingleLeafPathUnique(key: string, msg: string, path: seq<string>)
    requires IsLeafPath(Node(Single(key, msg)), path)
    ensures path == Split(key, '.')
    decreases |key|
  {
    var parts := SplitN2(key, '.');
    if |parts| == 2 {
      SplitFirst(key, '.');
      SingleLeafPathUnique(parts[1], msg, path[1..]);
      assert path == [path[0]] + path[1..];
    }
  }

  // ---------------------------------------------------------------------------
  // ErrResp

  /**
   * `ErrResp`: a nil error fails the type assertion and then panics on
   * `err.Error()`; any other error gives its text; for validation errors only the
   * first one is kept (`errs[0:1]`, which panics on an empty set), translated
   * into `{namespace: message}`, stripped of its struct segment, nested, and
   * flattened.  For a namespace `S.f1.….fn` the result is `f1.….f(n-1).m`,
   * just `m` when n = 1; leading empty segments leave no trace.
   */
  method ErrResp(err: Error) returns (r: Outcome<string>)
    ensures err.Nil? ==> r == Panic(NilPanic)
    ensures err.Failure? ==> r == Done(err.text)
    ensures err.ValidationErrors? && err.errs == [] ==> r == Panic(SlicePanic)
    ensures err.ValidationErrors? && err.errs != [] && '.' !in err.errs[0].namespace ==> r == Panic(IndexPanic)
    ensures err.ValidationErrors? && err.errs != [] && '.' in err.errs[0].namespace ==>
      r == Done(FlatMessage(err.errs[0].namespace, err.errs[0].message))
  {
    match err
    case Nil =>
      r := Panic(NilPanic);
    case Failure(text) =>
      r := Done(text);
    case ValidationErrors(errs) =>
      if errs == [] {
        r := Panic(SlicePanic);
        return;
      }
      var first := errs[..1];
      var ns, msg := first[0].namespace, first[0].message;
      assert ns == errs[0].namespace && msg == errs[0].message;
      var translated := map[ns := msg];
      var errMap, visit, lower, order := RemoveTopStruct(translated);
      StripOne(ns, msg, visit, lower, order, errMap);
      match errMap
      case Panic(why) =>
        r := Panic(why);
      case Done(m) =>
        if |m| > 0 {
          assert Dense(Node(m)) by {
            SingleShape(Tail(ns), msg);
          }
          var s, path := HandleErrMap("", Node(m));
          FlattenOne(ns, msg, path, s);
          r := Done(s);
        } else {
          r := Done("");
        }
  }

  /** The one entry of a one-entry map. */
  lemma EntriesSingle(key: string, msg: string, order: seq<string>)
    requires IsEnumeration(order, {key})
    ensures forall k :: 0 <= k < |order| ==> order[k] in map[key := msg]
    ensures Entries(map[key := msg], order) == [(key, msg)]
  {
    SingletonEnumeration(order, key);
  }

  /** What `removeTopStruct` returns for a single field error. */
  lemma StripOne(ns: string, msg: string, visit: seq<string>, lower: map<string, string>, order: seq<string>,
                 res: Outcome<map<string, ErrTree>>)
    requires IsEnumeration(visit, {ns})
    requires (exists k :: k in map[ns := msg] && '.' !in k) ==> res == Panic(IndexPanic)
    requires (forall k :: k in map[ns := msg] ==> '.' in k) ==>
      && lower == StripAll(Entries(map[ns := msg], visit))
      && IsEnumeration(order, lower.Keys)
      && res == AddAll(Entries(lower, order))
    ensures '.' !in ns ==> res == Panic(IndexPanic)
    ensures '.' in ns ==> res == Done(Single(Tail(ns), msg))
  {
    if '.' in ns {
      var t := Tail(ns);
      assert IsEnumeration(order, {t}) && res == AddAll(Entries(map[t := msg], order)) by {
        assert forall k :: k in map[ns := msg] ==> '.' in k;
        StripSingle(ns, msg, visit);
      }
      assert res == Done(Single(t, msg)) by {
        EntriesSingle(t, msg, order);
        AddAllOne(t, msg);
      }
    } else {
      var k := ns;
      assert k in map[ns := msg] && '.' !in k;
    }
  }

  /** Stripping the struct segment of the one key of a one-entry map. */
  lemma StripSingle(ns: string, msg: string, visit: seq<string>)
    requires '.' in ns && IsEnumeration(visit, {ns})
    ensures forall i :: 0 <= i < |visit| ==> visit[i] in map[ns := msg]
    ensures forall i :: 0 <= i < |visit| ==> '.' in Entries(map[ns := msg], visit)[i].0
    ensures StripAll(Entries(map[ns := msg], visit)) == map[Tail(ns) := msg]
  {
    var e := Entries(map[ns := msg], visit);
    assert e == [(ns, msg)] by {
      EntriesSingle(ns, msg, visit);
    }
    assert e[..0] == [];
  }

  /** Flattening the tree of one field path `S.f1.….fn` with message `msg`. */
  lemma FlattenOne(ns: string, msg: string, path: seq<string>, s: string)
    requires '.' in ns
    requires IsLeafPath(Node(Single(Tail(ns), msg)), path)
    requires s == JoinPath("", path[..|path| - 1], LeafAt(Node(Single(Tail(ns), msg)), path))
    ensures s == FlatMessage(ns, msg)
  {
    var segs := Split(ns, '.');
    var keys := path[..|path| - 1];
    assert path == Split(Tail(ns), '.') by {
      SingleLeafPathUnique(Tail(ns), msg, path);
    }
    assert s == JoinPath("", keys, msg) by {
      SingleShape(Tail(ns), msg);
    }
    SplitHeadTail(ns);
    InnerSegments(segs, Head(ns), path);
    JoinPathFromRoot(keys, msg);
  }
}
