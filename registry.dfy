/**
 * The callback registry of the reader (src/Reader/XmlStreamReader.php:43,
 * 124-174, 203-214): an `SplObjectStorage` keyed by path OBJECTS, each
 * mapping to an `SplObjectStorage` of callback objects.  Both storages keep
 * insertion order and compare by object identity.
 *
 * A path object is modelled by its identity together with the validated
 * text it carries: two objects with the same text are different keys.  A
 * callback is modelled by its identity alone.
 */
module Registry {

  import opened XmlPaths

  type CallbackId = nat

  /** A path object: its identity and the text it was constructed with.
      Only objects that XmlPaths.Construct accepted exist (see Validated). */
  datatype PathRef = PathRef(id: nat, path: string)

  /** The object was built by the path constructor, so its text passed the
      check. */
  predicate IsPathObject(p: PathRef) {
    Accepts(p.path)
  }

  /** Every key is a path object (the storage is typed `XmlPath`). */
  predicate Validated(t: Table) {
    forall k :: 0 <= k < |t| ==> IsPathObject(t[k].key)
  }

  /** One key of the outer storage with the callbacks attached to it. */
  datatype Entry = Entry(key: PathRef, callbacks: seq<CallbackId>)

  type Table = seq<Entry>

  predicate Distinct<T(==)>(xs: seq<T>) {
    forall i, j :: 0 <= i < j < |xs| ==> xs[i] != xs[j]
  }

  function Keys(t: Table): (ks: seq<PathRef>)
    ensures |ks| == |t|
    ensures forall k :: 0 <= k < |t| ==> ks[k] == t[k].key
  {
    if t == [] then [] else [t[0].key] + Keys(t[1..])
  }

  /** Each path object is a key at most once and each of its callbacks is
      attached at most once. */
  predicate Valid(t: Table) {
    (forall i, j :: 0 <= i < j < |t| ==> t[i].key != t[j].key)
    && forall k :: 0 <= k < |t| ==> Distinct(t[k].callbacks)
  }

  /** The position of `p` among the keys, or |t| when it is not a key
      (`isset($this->callbacks[$path])` is `Find(t, p) < |t|`). */
  function Find(t: Table, p: PathRef): (i: nat)
    ensures i <= |t|
    ensures i < |t| ==> t[i].key == p
    ensures forall k :: 0 <= k < i ==> t[k].key != p
    ensures i == |t| ==> forall k :: 0 <= k < |t| ==> t[k].key != p
  {
    if t == [] then 0
    else if t[0].key == p then 0
    else 1 + Find(t[1..], p)
  }

  /** The callbacks attached to `p`, none when it is not a key. */
  function CallbacksOf(t: Table, p: PathRef): seq<CallbackId> {
    var i := Find(t, p);
    if i < |t| then t[i].callbacks else []
  }

  /** `detach($callback)` on a callback storage. */
  function Remove(cbs: seq<CallbackId>, cb: CallbackId): (r: seq<CallbackId>)
    ensures cb !in r
    ensures forall c :: c != cb ==> multiset(r)[c] == multiset(cbs)[c]
  {
    if cbs == [] then []
    else
      assert cbs == [cbs[0]] + cbs[1..];
      if cbs[0] == cb then Remove(cbs[1..], cb)
      else [cbs[0]] + Remove(cbs[1..], cb)
  }

  /** registerCallback (124-137): create the key if it is missing, then
      attach the callback unless it is already attached. */
  function Register(t: Table, p: PathRef, cb: CallbackId): Table {
    var i := Find(t, p);
    if i == |t| then t + [Entry(p, [cb])]
    else if cb in t[i].callbacks then t
    else t[i := t[i].(callbacks := t[i].callbacks + [cb])]
  }

  /** deregisterCallbackInPath (203-214): detach the callback from one key,
      if that key is present. */
  function DetachIn(t: Table, p: PathRef, cb: CallbackId): Table {
    var i := Find(t, p);
    if i < |t| then t[i := t[i].(callbacks := Remove(t[i].callbacks, cb))] else t
  }

  /** The loop of deregisterCallback (152-154): detach the callback from every
      key. */
  function DetachEverywhere(t: Table, cb: CallbackId): Table {
    if t == [] then []
    else [t[0].(callbacks := Remove(t[0].callbacks, cb))] + DetachEverywhere(t[1..], cb)
  }

  /** deregisterPath (163-174): unset the key if it is present. */
  function RemovePath(t: Table, p: PathRef): Table {
    var i := Find(t, p);
    if i < |t| then t[..i] + t[i + 1..] else t
  }

  // ---------------------------------------------------------------------
  //  Registering

  /** The first position holding `p` is its position. */
  lemma FindAt(t: Table, p: PathRef, i: nat)
    requires i < |t| && t[i].key == p
    requires forall k :: 0 <= k < i ==> t[k].key != p
    ensures Find(t, p) == i
  {
  }

  /** `p` is a key exactly when Find finds it. */
  lemma FindInKeys(t: Table, p: PathRef)
    ensures Find(t, p) < |t| <==> p in Keys(t)
  {
    if p in Keys(t) {
      var k :| 0 <= k < |t| && Keys(t)[k] == p;
      assert t[k].key == p;
    }
  }

  /** A registered callback is attached to its path exactly once, and a
      missing key or callback is appended after the existing ones. */
  lemma RegisterAttaches(t: Table, p: PathRef, cb: CallbackId)
    requires Valid(t)
    ensures Valid(Register(t, p, cb))
    ensures Keys(Register(t, p, cb)) == if p in Keys(t) then Keys(t) else Keys(t) + [p]
    ensures CallbacksOf(Register(t, p, cb), p)
         == if cb in CallbacksOf(t, p) then CallbacksOf(t, p) else CallbacksOf(t, p) + [cb]
    ensures multiset(CallbacksOf(Register(t, p, cb), p))[cb] == 1
  {
    var r := Register(t, p, cb);
    var i := Find(t, p);
    RegisterKeepsValid(t, p, cb);
    if i == |t| {
      AppendedKeys(t, Entry(p, [cb]));
      FindAt(r, p, i);
    } else {
      UpdatedKeys(t, i, r[i]);
      FindAt(r, p, i);
    }
    FindInKeys(t, p);
    DistinctCount(CallbacksOf(r, p), cb);
  }

  lemma RegisterKeepsValid(t: Table, p: PathRef, cb: CallbackId)
    requires Valid(t)
    ensures Valid(Register(t, p, cb))
  {
    var i := Find(t, p);
    if i < |t| && cb !in t[i].callbacks {
      var cbs := t[i].callbacks + [cb];
      assert Distinct(cbs) by {
        forall a, b | 0 <= a < b < |cbs|
          ensures cbs[a] != cbs[b]
        {
          if b == |cbs| - 1 {
            assert cbs[a] in t[i].callbacks;
          }
        }
      }
    }
  }

  lemma AppendedKeys(t: Table, e: Entry)
    ensures Keys(t + [e]) == Keys(t) + [e.key]
  {
  }

  lemma UpdatedKeys(t: Table, i: nat, e: Entry)
    requires i < |t| && e.key == t[i].key
    ensures Keys(t[i := e]) == Keys(t)
  {
  }

  /** In a duplicate-free sequence an element occurs once. */
  lemma DistinctCount(xs: seq<CallbackId>, x: CallbackId)
    requires Distinct(xs) && x in xs
    ensures multiset(xs)[x] == 1
  {
    var k :| 0 <= k < |xs| && xs[k] == x;
    assert xs == xs[..k] + [x] + xs[k + 1..];
    assert x !in xs[..k] && x !in xs[k + 1..];
    assert multiset(xs) == multiset(xs[..k]) + multiset{x} + multiset(xs[k + 1..]);
  }

  /** Only path objects become keys. */
  lemma RegisterValidated(t: Table, p: PathRef, cb: CallbackId)
    requires Validated(t) && IsPathObject(p)
    ensures Validated(Register(t, p, cb))
  {
  }

  /** Registering the same pair twice has the effect of registering it
      once. */
  lemma RegisterIdempotent(t: Table, p: PathRef, cb: CallbackId)
    ensures Register(Register(t, p, cb), p, cb) == Register(t, p, cb)
  {
    var r := Register(t, p, cb);
    var i := Find(t, p);
    FindAt(r, p, i);
    assert cb in r[i].callbacks;
  }

  /** Registering touches no other key. */
  lemma RegisterKeepsOthers(t: Table, p: PathRef, cb: CallbackId, q: PathRef)
    requires q != p
    ensures CallbacksOf(Register(t, p, cb), q) == CallbacksOf(t, q)
  {
    var r := Register(t, p, cb);
    var j := Find(t, q);
    if j < |t| {
      FindAt(r, q, j);
    } else {
      assert forall k :: 0 <= k < |r| ==> r[k].key != q;
    }
  }


  // ---------------------------------------------------------------------
  //  Deregistering

  /** deregisterPath removes the key with all its callbacks and does nothing
      when the key is missing. */
  lemma RemovePathRemoves(t: Table, p: PathRef)
    requires Valid(t)
    ensures Valid(RemovePath(t, p))
    ensures p !in Keys(RemovePath(t, p))
    ensures CallbacksOf(RemovePath(t, p), p) == []
    ensures p !in Keys(t) ==> RemovePath(t, p) == t
  {
    var i := Find(t, p);
    if i < |t| {
      var r := t[..i] + t[i + 1..];
      assert forall k :: 0 <= k < |r| ==> r[k] == (if k < i then t[k] else t[k + 1]);
      assert forall k :: 0 <= k < |r| ==> r[k].key != p;
    }
  }

  /** deregisterPath keeps every other key, in order, with its callbacks. */
  lemma RemovePathKeepsOthers(t: Table, p: PathRef, q: PathRef)
    requires q != p
    ensures CallbacksOf(RemovePath(t, p), q) == CallbacksOf(t, q)
    ensures q in Keys(RemovePath(t, p)) <==> q in Keys(t)
  {
    var i, j := Find(t, p), Find(t, q);
    var r := RemovePath(t, p);
    RemovePathFind(t, p, q);
    if i < |t| {
      DropShape(t, i);
      assert |r| == |t| - 1;
      if j < |t| {
        assert r[Find(r, q)] == t[j];
      }
    }
    FindInKeys(t, q);
    FindInKeys(r, q);
  }

  /** Where another key ends up once `p` is removed. */
  lemma RemovePathFind(t: Table, p: PathRef, q: PathRef)
    requires q != p
    ensures var i, j := Find(t, p), Find(t, q);
      Find(RemovePath(t, p), q) == if i < |t| && i < j then j - 1 else j
  {
    var i := Find(t, p);
    var r := RemovePath(t, p);
    var j := Find(t, q);
    if i < |t| {
      DropShape(t, i);
      if j < |t| {
        if j < i {
          FindAt(r, q, j);
        } else {
          FindAt(r, q, j - 1);
        }
      } else {
        assert Find(r, q) == |r|;
      }
    }
  }

  lemma DropShape(t: Table, i: nat)
    requires i < |t|
    ensures |t[..i] + t[i + 1..]| == |t| - 1
    ensures forall k :: 0 <= k < |t| - 1 ==> (t[..i] + t[i + 1..])[k] == if k < i then t[k] else t[k + 1]
  {
  }

  /** The loop of deregisterCallback: the callback is attached nowhere
      afterwards, every other callback and every key stays where it was. */
  lemma {:induction false} DetachEverywhereEffect(t: Table, cb: CallbackId)
    ensures |DetachEverywhere(t, cb)| == |t|
    ensures Keys(DetachEverywhere(t, cb)) == Keys(t)
    ensures forall k :: 0 <= k < |t| ==>
      DetachEverywhere(t, cb)[k].callbacks == Remove(t[k].callbacks, cb)
  {
    if t != [] {
      DetachEverywhereEffect(t[1..], cb);
      var r := DetachEverywhere(t, cb);
      assert forall k :: 1 <= k < |t| ==> r[k] == DetachEverywhere(t[1..], cb)[k - 1];
    }
  }

  lemma RemoveKeepsOther(cbs: seq<CallbackId>, cb: CallbackId, j: nat)
    requires j < |cbs| && cbs[j] != cb
    ensures cbs[j] in Remove(cbs, cb)
  {
    assert cbs[j] in multiset(cbs);
  }

  /** Removing a callback keeps the others in their order. */
  lemma {:induction false} RemoveKeepsOrder(cbs: seq<CallbackId>, cb: CallbackId, i: nat, j: nat)
    requires i < j < |cbs| && cbs[i] != cb && cbs[j] != cb
    ensures exists i', j' ::
      0 <= i' < j' < |Remove(cbs, cb)| && Remove(cbs, cb)[i'] == cbs[i] && Remove(cbs, cb)[j'] == cbs[j]
  {
    var r := Remove(cbs, cb);
    var tail := Remove(cbs[1..], cb);
    if i == 0 {
      assert r == [cbs[0]] + tail;
      RemoveKeepsOther(cbs[1..], cb, j - 1);
      var j' :| 0 <= j' < |tail| && tail[j'] == cbs[j];
      assert r[0] == cbs[i] && r[j' + 1] == cbs[j];
    } else {
      assert cbs[1..][i - 1] == cbs[i] && cbs[1..][j - 1] == cbs[j];
      RemoveKeepsOrder(cbs[1..], cb, i - 1, j - 1);
      var i', j' :| 0 <= i' < j' < |tail| && tail[i'] == cbs[i] && tail[j'] == cbs[j];
      if cbs[0] == cb {
        assert r == tail;
      } else {
        assert r == [cbs[0]] + tail;
        assert r[i' + 1] == cbs[i] && r[j' + 1] == cbs[j];
      }
    }
  }

  /** Detaching from one key: that key loses the callback, all else stays. */
  lemma DetachInEffect(t: Table, p: PathRef, cb: CallbackId, q: PathRef)
    ensures Keys(DetachIn(t, p, cb)) == Keys(t)
    ensures CallbacksOf(DetachIn(t, p, cb), p) == Remove(CallbacksOf(t, p), cb)
    ensures q != p ==> CallbacksOf(DetachIn(t, p, cb), q) == CallbacksOf(t, q)
  {
    var r := DetachIn(t, p, cb);
    assert forall k :: 0 <= k < |t| ==> r[k].key == t[k].key;
    assert Find(r, p) == Find(t, p);
    assert Find(r, q) == Find(t, q);
  }

  /** detach() of a callback that is not attached changes nothing. */
  lemma {:induction false} RemoveAbsent(cbs: seq<CallbackId>, cb: CallbackId)
    requires cb !in cbs
    ensures Remove(cbs, cb) == cbs
  {
    if cbs != [] {
      RemoveAbsent(cbs[1..], cb);
      assert [cbs[0]] + cbs[1..] == cbs;
    }
  }

  /** Detaching keeps each callback attached at most once. */
  lemma {:induction false} RemoveDistinct(cbs: seq<CallbackId>, cb: CallbackId)
    requires Distinct(cbs)
    ensures Distinct(Remove(cbs, cb))
  {
    if cbs != [] {
      RemoveDistinct(cbs[1..], cb);
      if cbs[0] != cb {
        assert cbs[0] !in cbs[1..];
        assert multiset(cbs[1..])[cbs[0]] == 0;
        assert cbs[0] !in Remove(cbs[1..], cb);
      }
    }
  }

  /** Detaching from one key keeps the registry valid. */
  lemma DetachInValid(t: Table, p: PathRef, cb: CallbackId)
    requires Valid(t) && Validated(t)
    ensures Valid(DetachIn(t, p, cb)) && Validated(DetachIn(t, p, cb))
  {
    var i := Find(t, p);
    if i < |t| {
      RemoveDistinct(t[i].callbacks, cb);
    }
  }
}
