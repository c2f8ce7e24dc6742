/**
 * The publish/subscribe core of the binding engine: one accessor per
 * observed key (a backing value and a `Dep` subscriber list), the watcher
 * arena, the global `Dep.target` slot, and the binding step of the template
 * compiler, over an abstract document of text nodes and elements.
 */
module Reactivity {
  import opened Wrappers
  import opened Dom
  import Interpolation

  /**
   * A JavaScript primitive as the engine stores, compares and displays it.
   * Numbers are the integers plus NaN; the text a display slot shows is kept
   * as the value assigned to it.
   */
  datatype Value = Undefined | Null | Bool(b: bool) | Num(n: int) | NaN | Str(s: string)

  /**
   * `===` on primitives, case by case: values of different types are never
   * strictly equal, NaN is equal to nothing, and otherwise the payloads are
   * compared. The result is equality of values with NaN taken out.
   */
  function StrictEquals(a: Value, b: Value): (r: bool)
    ensures r <==> a == b && !a.NaN?
    ensures a.NaN? || b.NaN? ==> !r
  {
    match (a, b)
    case (Undefined, Undefined) => true
    case (Null, Null) => true
    case (Bool(x), Bool(y)) => x == y
    case (Num(x), Num(y)) => x == y
    case (NaN, NaN) => false
    case (Str(x), Str(y)) => x == y
    case _ => false
  }

  type Key = string
  type NodeId = nat
  type WatcherId = nat

  /** A watcher: the text node it renders into, the key it reads, the value it last read. */
  datatype Watcher = Watcher(node: NodeId, name: Key, value: Value)

  /**
   * The key a text node's content binds, if the interpolation pattern matches
   * it. Content that is not a string cannot match: the string forms of
   * undefined, null, booleans, integers and NaN contain no `{{`.
   */
  function TextBinding(content: Value): (r: Option<Key>)
    ensures r.Some? <==> content.Str? && exists p, q :: Interpolation.IsMatch(content.s, p, q)
    ensures r.Some? ==> Interpolation.Trimmed(r.value) && Interpolation.SingleLine(r.value)
  {
    if content.Str? then Interpolation.BindingName(content.s) else None
  }

  /**
   * Each watcher sits exactly once in the list of the key it reads (when
   * that key has a list) and in no other list.
   */
  ghost predicate RegisteredIn(subs: map<Key, seq<WatcherId>>, watchers: seq<Watcher>) {
    forall k: Key, id: WatcherId :: k in subs ==>
      multiset(subs[k])[id] == if id < |watchers| && watchers[id].name == k then 1 else 0
  }

  /** Registration at one key and one id. */
  lemma RegisteredAt(subs: map<Key, seq<WatcherId>>, ws: seq<Watcher>, k: Key, id: WatcherId)
    requires RegisteredIn(subs, ws) && k in subs
    ensures multiset(subs[k])[id] == if id < |ws| && ws[id].name == k then 1 else 0
  {
  }

  /** Registration depends on the keys watchers read, not on the values they last saw. */
  lemma RegisteredSameNames(subs: map<Key, seq<WatcherId>>, ws: seq<Watcher>, ws': seq<Watcher>)
    requires RegisteredIn(subs, ws)
    requires |ws'| == |ws| && forall id :: 0 <= id < |ws| ==> ws'[id].name == ws[id].name
    ensures RegisteredIn(subs, ws')
  {
  }

  /** Appending a new watcher to the list of the key it reads keeps registration exact. */
  lemma RegisterNew(subs: map<Key, seq<WatcherId>>, ws: seq<Watcher>, w: Watcher)
    requires RegisteredIn(subs, ws)
    ensures RegisteredIn(if w.name in subs then subs[w.name := subs[w.name] + [|ws|]] else subs, ws + [w])
  {
    var subs' := if w.name in subs then subs[w.name := subs[w.name] + [|ws|]] else subs;
    var ws' := ws + [w];
    forall k: Key, id: WatcherId | k in subs'
      ensures multiset(subs'[k])[id] == if id < |ws'| && ws'[id].name == k then 1 else 0
    {
      RegisteredAt(subs, ws, k, id);
      if id < |ws| { assert ws'[id] == ws[id]; }
      if k == w.name {
        assert subs'[k] == subs[k] + [|ws|];
        assert multiset(subs'[k]) == multiset(subs[k]) + multiset{|ws|};
      }
    }
  }

  /** The nodes rendered by the watchers listed in `ids`. */
  ghost function NodesOf(ws: seq<Watcher>, ids: seq<WatcherId>): set<NodeId> {
    set j | 0 <= j < |ids| && ids[j] < |ws| :: ws[ids[j]].node
  }

  /** The nodes rendered by the watchers that read k. */
  ghost function NodesReading(ws: seq<Watcher>, k: Key): set<NodeId> {
    set id | 0 <= id < |ws| && ws[id].name == k :: ws[id].node
  }

  /** One more listed watcher adds its node. */
  lemma NodesOfSnoc(ws: seq<Watcher>, ids: seq<WatcherId>, id: WatcherId)
    requires id < |ws|
    ensures NodesOf(ws, ids + [id]) == NodesOf(ws, ids) + {ws[id].node}
  {
    var ids' := ids + [id];
    forall n | n in NodesOf(ws, ids') ensures n in NodesOf(ws, ids) + {ws[id].node} {
      var j :| 0 <= j < |ids'| && ids'[j] < |ws| && ws[ids'[j]].node == n;
      if j < |ids| { assert ids'[j] == ids[j]; }
    }
    forall n | n in NodesOf(ws, ids) ensures n in NodesOf(ws, ids') {
      var j :| 0 <= j < |ids| && ids[j] < |ws| && ws[ids[j]].node == n;
      assert ids'[j] == ids[j];
    }
    assert ids'[|ids|] == id;
  }

  /** `cur` is `ws` once the watchers listed in `ids` have read `v`. */
  ghost predicate Refreshed(ws: seq<Watcher>, ids: seq<WatcherId>, v: Value, cur: seq<Watcher>) {
    |cur| == |ws| && forall j :: 0 <= j < |ws| ==> cur[j] == if j in ids then ws[j].(value := v) else ws[j]
  }

  /** `cur` is `shown` once the nodes of the watchers listed in `ids` show `v`. */
  ghost predicate Repainted(ws: seq<Watcher>, shown: map<NodeId, Value>, ids: seq<WatcherId>, v: Value, cur: map<NodeId, Value>) {
    cur.Keys == shown.Keys && forall n :: n in cur ==> cur[n] == if n in NodesOf(ws, ids) then v else shown[n]
  }

  /**
   * One more `update` during a notification: after `done`, watcher `id`
   * reads `v` and its node shows it, and the call log grows by `id`.
   */
  lemma NotifyAdvance(ws: seq<Watcher>, shown: map<NodeId, Value>, done: seq<WatcherId>, id: WatcherId, v: Value,
                      w0: seq<Watcher>, t0: map<NodeId, Value>, w1: seq<Watcher>, t1: map<NodeId, Value>,
                      log: seq<WatcherId>, u0: seq<WatcherId>, u1: seq<WatcherId>)
    requires id < |ws| && ws[id].node in shown
    requires Refreshed(ws, done, v, w0) && Repainted(ws, shown, done, v, t0)
    requires w1 == w0[id := w0[id].(value := v)] && t1 == t0[w0[id].node := v]
    requires u0 == log + done && u1 == u0 + [id]
    ensures Refreshed(ws, done + [id], v, w1) && Repainted(ws, shown, done + [id], v, t1)
    ensures u1 == log + (done + [id])
  {
    NodesOfSnoc(ws, done, id);
    assert w0[id].node == ws[id].node;
  }

  /** A prefix one longer is the prefix and the next element. */
  lemma PrefixSnoc(list: seq<WatcherId>, i: nat)
    requires i < |list|
    ensures list[..i + 1] == list[..i] + [list[i]]
  {
    assert list[..i + 1][i] == list[i];
  }

  /** Every subscriber of k is a watcher that reads k. */
  lemma SubscribersRead(subs: map<Key, seq<WatcherId>>, ws: seq<Watcher>, k: Key)
    requires RegisteredIn(subs, ws) && k in subs
    ensures forall i :: 0 <= i < |subs[k]| ==> subs[k][i] < |ws| && ws[subs[k][i]].name == k
  {
    forall i | 0 <= i < |subs[k]| ensures subs[k][i] < |ws| && ws[subs[k][i]].name == k {
      var id := subs[k][i];
      assert id in multiset(subs[k]);
      RegisteredAt(subs, ws, k, id);
    }
  }

  /** With exact registration, the subscriber list of k holds exactly the watchers that read k. */
  lemma SubscribersAreReaders(subs: map<Key, seq<WatcherId>>, ws: seq<Watcher>, k: Key)
    requires RegisteredIn(subs, ws) && k in subs
    ensures forall id: WatcherId :: id in subs[k] <==> id < |ws| && ws[id].name == k
    ensures NodesOf(ws, subs[k]) == NodesReading(ws, k)
  {
    forall id: WatcherId ensures id in subs[k] <==> id < |ws| && ws[id].name == k {
      assert id in subs[k] <==> id in multiset(subs[k]);
      RegisteredAt(subs, ws, k, id);
    }
    forall n | n in NodesReading(ws, k) ensures n in NodesOf(ws, subs[k]) {
      var id :| 0 <= id < |ws| && ws[id].name == k && ws[id].node == n;
      var j :| 0 <= j < |subs[k]| && subs[k][j] == id;
    }
  }

  /**
   * A notification of k, stated over its subscriber list, is the refresh of
   * exactly the watchers that read k and the repaint of exactly their nodes.
   */
  lemma NotifiedReaders(subs: map<Key, seq<WatcherId>>, ws: seq<Watcher>, shown: map<NodeId, Value>, k: Key, v: Value,
                        cur: seq<Watcher>, painted: map<NodeId, Value>)
    requires RegisteredIn(subs, ws) && k in subs
    requires Refreshed(ws, subs[k], v, cur) && Repainted(ws, shown, subs[k], v, painted)
    ensures |cur| == |ws| && forall id :: 0 <= id < |ws| ==>
              cur[id] == if ws[id].name == k then ws[id].(value := v) else ws[id]
    ensures painted.Keys == shown.Keys && forall n :: n in painted ==>
              painted[n] == if n in NodesReading(ws, k) then v else shown[n]
  {
    SubscribersAreReaders(subs, ws, k);
  }

  /**
   * The attribute loop of `compile` over an element's live attribute list:
   * indices run upwards against the current length, and at `v-model` its
   * value is taken and the attribute removed (the next attribute slides into
   * the removed index and is skipped, which on an element can never be a
   * second `v-model`). Yields the remaining attributes and the bound key.
   */
  method ScanAttributes(attrs: seq<Attr>) returns (rest: seq<Attr>, binding: Option<Key>)
    requires UniqueNames(attrs)
    ensures rest == RemoveAttr(attrs, VModel)
    ensures binding == GetAttr(attrs, VModel)
  {
    rest, binding := attrs, None;
    var i := 0;
    while i < |rest|
      invariant binding.None? ==> rest == attrs && i <= |attrs| && Lacks(attrs[..i], VModel)
      invariant binding.Some? ==> rest == RemoveAttr(attrs, VModel) && Lacks(rest, VModel) && binding == GetAttr(attrs, VModel)
      decreases |rest| + 1 - i
    {
      if rest[i].name == VModel {
        binding := Some(rest[i].value);
        GetAttrAt(attrs, VModel, i);
        OnlyOne(attrs, VModel, i);
        RemoveAttrAt(attrs, VModel, i);
        RemoveAttrKeeps(attrs, VModel);
        rest := rest[..i] + rest[i + 1..];
      } else if binding.None? {
        assert attrs[..i + 1] == attrs[..i] + [attrs[i]];
      }
      i := i + 1;
    }
    if binding.None? {
      assert attrs[..i] == attrs;
      RemoveAttrAbsent(attrs, VModel);
    }
  }

  /** The engine instance `vm`, together with the document nodes it binds. */
  class Vm {
    /**
     * `vm.data`: the options' data object. It is an ordinary mutable object;
     * the contracts below show that no accessor write reaches it.
     */
    var data: map<Key, Value>
    /** The closure variable `val` of each key's accessor; its domain is the observed keys. */
    var store: map<Key, Value>
    /** Ordinary properties of `vm`, created by assigning a key that has no accessor. */
    var plain: map<Key, Value>
    /** `Dep.subs` of each observed key, in registration order. */
    var subs: map<Key, seq<WatcherId>>
    /** Every watcher constructed so far; a watcher's id is its index. */
    var watchers: seq<Watcher>
    /** `Dep.target`, the watcher whose first read is being captured. */
    var target: Option<WatcherId>
    /** `nodeValue` of each text node. */
    var text: map<NodeId, Value>
    /** The attributes of each element node. */
    var attrs: map<NodeId, seq<Attr>>
    /** `value` of the element nodes whose value has been assigned. */
    var inputValue: map<NodeId, Value>
    /** The key each element's `input` listener writes. */
    var listeners: map<NodeId, Key>
    /** The watchers whose `update` ran, in call order. */
    ghost var updates: seq<WatcherId>

    /** The document's shape: text nodes and elements apart, element attribute names distinct. */
    ghost predicate DocWf()
      reads this`text, this`attrs, this`listeners
    {
      && text.Keys !! attrs.Keys
      && (forall n :: n in attrs ==> UniqueNames(attrs[n]))
      && (forall n :: n in listeners ==> n in attrs)
    }

    /** One subscriber list per observed key, every id a watcher, every watcher on a text node. */
    ghost predicate EngineWf()
      reads this`store, this`plain, this`subs, this`watchers, this`target, this`text
    {
      && subs.Keys == store.Keys
      && store.Keys !! plain.Keys
      && (forall k, i :: k in subs && 0 <= i < |subs[k]| ==> subs[k][i] < |watchers|)
      && (forall id :: 0 <= id < |watchers| ==> watchers[id].node in text)
      && (target.Some? ==> target.value < |watchers|)
    }

    /** Well-formedness that holds at every point, including inside a watcher's construction. */
    ghost predicate Wf()
      reads this`store, this`plain, this`subs, this`watchers, this`target, this`text, this`attrs, this`listeners
    {
      EngineWf() && DocWf()
    }

    /** Every watcher is in the list of the key it reads, once, and in no other. */
    ghost predicate Registered()
      reads this`subs, this`watchers
    {
      RegisteredIn(subs, watchers)
    }

    /** The invariant between operations: registrations exact and `Dep.target` empty. */
    ghost predicate Valid()
      reads this`store, this`plain, this`subs, this`watchers, this`target, this`text, this`attrs, this`listeners
    {
      Wf() && Registered() && target == None
    }

    /** `vm[k]` as the getter returns it. */
    ghost function Read(k: Key): (r: Value)
      reads this`store, this`plain
      ensures k in store ==> r == store[k]
      ensures k !in store && k in plain ==> r == plain[k]
      ensures k !in store && k !in plain ==> r == Undefined
    {
      if k in store then store[k] else if k in plain then plain[k] else Undefined
    }

    /** `vm.data[k]`: the raw data, `undefined` for a missing key. */
    function RawData(k: Key): (r: Value)
      reads this`data
      ensures k in data ==> r == data[k]
      ensures k !in data ==> r == Undefined
    {
      if k in data then data[k] else Undefined
    }

    /** The subscriber lists once `vm[k]` has been read. */
    ghost function SubsAfterRead(k: Key): map<Key, seq<WatcherId>>
      reads this`target, this`subs
    {
      if target.Some? && k in subs then subs[k := subs[k] + [target.value]] else subs
    }

    /** The effect of `vm[k] = v` through the accessor (or on a plain property). */
    twostate predicate Assigned(k: Key, v: Value)
      reads this
    {
      && subs == old(subs)
      && if k !in old(store) then
           && plain == old(plain)[k := v] && store == old(store)
           && watchers == old(watchers) && text == old(text) && updates == old(updates)
         else if StrictEquals(v, old(store[k])) then
           && plain == old(plain) && store == old(store)
           && watchers == old(watchers) && text == old(text) && updates == old(updates)
         else
           && plain == old(plain) && store == old(store)[k := v]
           && k in subs && updates == old(updates) + subs[k]
           && |watchers| == |old(watchers)|
           && (forall id :: 0 <= id < |watchers| ==>
                 watchers[id] == if old(watchers[id]).name == k then old(watchers[id]).(value := v) else old(watchers[id]))
           && text.Keys == old(text).Keys
           && (forall n :: n in text ==> text[n] == if n in NodesReading(old(watchers), k) then v else old(text[n]))
    }

    /** The effect of `new watcher(vm, node, name)`. */
    twostate predicate Constructed(node: NodeId, name: Key)
      reads this
    {
      var id := |old(watchers)|;
      && watchers == old(watchers) + [Watcher(node, name, old(Read(name)))]
      && subs == (if name in old(subs) then old(subs)[name := old(subs)[name] + [id]] else old(subs))
      && text == old(text)[node := old(Read(name))]
      && updates == old(updates) + [id]
    }

    /**
     * `new Vue({el, data})` up to compilation: store `data` and observe it.
     * The document is given as its text nodes and its elements.
     */
    constructor (data: map<Key, Value>, text: map<NodeId, Value>, attrs: map<NodeId, seq<Attr>>)
      requires text.Keys !! attrs.Keys
      requires forall n :: n in attrs ==> UniqueNames(attrs[n])
      ensures Valid()
      ensures this.data == data && store == data && subs == (map k | k in data :: [])
      ensures plain == map[] && watchers == [] && updates == []
      ensures this.text == text && this.attrs == attrs && inputValue == map[] && listeners == map[]
      ensures forall k :: Read(k) == RawData(k)
    {
      this.data := data;
      store, plain, subs, watchers, target := map[], map[], map[], [], None;
      this.text, this.attrs, inputValue, listeners := text, attrs, map[], map[];
      updates := [];
      new;
      Observe();
    }

    /** `observer(data, vm)`: define an accessor on `vm` for every key of `data`. */
    method Observe()
      requires Valid() && store == map[] && plain == map[] && watchers == []
      modifies this`store, this`subs
      ensures Valid()
      ensures store == data && subs == (map k | k in data :: [])
    {
      var keys := data.Keys;
      while keys != {}
        invariant keys <= data.Keys
        invariant store.Keys == subs.Keys == data.Keys - keys
        invariant forall k :: k in store ==> store[k] == data[k] && subs[k] == []
        decreases keys
      {
        var k :| k in keys;
        // define the accessor of k: its backing value and an empty subscriber list
        store := store[k := data[k]];
        subs := subs[k := []];
        keys := keys - {k};
      }
    }

    /** The accessor's getter, `vm[k]`. */
    method Get(k: Key) returns (v: Value)
      requires Wf()
      modifies this`subs
      ensures Wf()
      ensures v == Read(k)
      ensures subs == old(SubsAfterRead(k))
    {
      if k in store {
        if target.Some? {
          subs := subs[k := subs[k] + [target.value]];
        }
        v := store[k];
      } else if k in plain {
        v := plain[k];
      } else {
        v := Undefined;
      }
    }

    /** `watcher.update`: `get` reads `vm[name]`, then the node shows what was read. */
    method Update(id: WatcherId)
      requires Wf() && id < |watchers|
      modifies this`subs, this`watchers, this`text, this`updates
      ensures Wf()
      ensures watchers == old(watchers)[id := old(watchers[id]).(value := old(Read(watchers[id].name)))]
      ensures text == old(text)[old(watchers[id]).node := old(Read(watchers[id].name))]
      ensures subs == old(SubsAfterRead(watchers[id].name))
      ensures updates == old(updates) + [id]
    {
      var w := watchers[id];
      var v := Get(w.name);
      watchers := watchers[id := w.(value := v)];
      text := text[w.node := v];
      updates := updates + [id];
    }

    /**
     * `Dep.notify` of an observed key: `update` every subscriber in
     * registration order. No list grows, since `Dep.target` is empty.
     */
    method Notify(k: Key)
      requires Valid() && k in subs
      modifies this`subs, this`watchers, this`text, this`updates
      ensures Valid()
      ensures subs == old(subs)
      ensures Refreshed(old(watchers), subs[k], store[k], watchers)
      ensures Repainted(old(watchers), old(text), subs[k], store[k], text)
      ensures updates == old(updates) + subs[k]
    {
      var list := subs[k];
      ghost var ws, shown, v, log := watchers, text, store[k], updates;
      SubscribersRead(subs, ws, k);
      var i := 0;
      while i < |list|
        invariant 0 <= i <= |list|
        invariant Wf() && target == None
        invariant subs == old(subs) && list == subs[k] && v == store[k]
        invariant Refreshed(ws, list[..i], v, watchers)
        invariant Repainted(ws, shown, list[..i], v, text)
        invariant updates == log + list[..i]
      {
        var id := list[i];
        assert id < |ws| && ws[id].name == k;
        assert watchers[id].name == k && watchers[id].node == ws[id].node;
        ghost var w0, t0, u0 := watchers, text, updates;
        Update(id);
        assert watchers == w0[id := w0[id].(value := v)];
        assert text == t0[w0[id].node := v];
        NotifyAdvance(ws, shown, list[..i], id, v, w0, t0, watchers, text, log, u0, updates);
        PrefixSnoc(list, i);
        i := i + 1;
      }
      assert list[..i] == list;
      RegisteredSameNames(subs, ws, watchers);
    }

    /** The accessor's setter, `vm[k] = v`: a strictly equal value is ignored. */
    method Set(k: Key, v: Value)
      requires Valid()
      modifies this`store, this`plain, this`subs, this`watchers, this`text, this`updates
      ensures Valid() && Assigned(k, v)
      ensures Read(k) == v
      ensures forall k' :: k' != k ==> Read(k') == old(Read(k'))
      ensures forall k' :: RawData(k') == old(RawData(k'))
    {
      if k in store {
        if StrictEquals(v, store[k]) {
          return;
        }
        store := store[k := v];
        ghost var ws, shown := watchers, text;
        Notify(k);
        NotifiedReaders(subs, ws, shown, k, v, watchers, text);
      } else {
        plain := plain[k := v];
      }
    }

    /**
     * `new watcher(vm, node, name)`: occupy `Dep.target`, run `update` (whose
     * read registers the watcher), then empty the slot.
     */
    method NewWatcher(node: NodeId, name: Key) returns (id: WatcherId)
      requires Valid() && node in text
      modifies this`subs, this`watchers, this`target, this`text, this`updates
      ensures Valid() && Constructed(node, name)
      ensures id == |old(watchers)|
      ensures text[node] == Read(name)
    {
      id := |watchers|;
      ghost var v := Read(name);
      var before := watchers + [Watcher(node, name, Undefined)];
      RegisterNew(subs, watchers, Watcher(node, name, Undefined));
      watchers := before;
      target := Some(id);
      Update(id);
      assert watchers == old(watchers) + [Watcher(node, name, v)];
      target := None;
      RegisteredSameNames(subs, before, watchers);
    }

    /**
     * The effect of the text branch of `compile` on text node `node`: a
     * watcher when its content matches the pattern, nothing otherwise.
     */
    twostate predicate TextCompiled(node: NodeId)
      reads this
    {
      && node in old(text)
      && attrs == old(attrs) && listeners == old(listeners) && inputValue == old(inputValue)
      && match TextBinding(old(text[node]))
         case Some(name) => Constructed(node, name)
         case None =>
           && watchers == old(watchers) && subs == old(subs) && text == old(text) && updates == old(updates)
    }

    /**
     * The effect of the element branch of `compile` on element `node`: its
     * `v-model` attribute is gone, and a listener and a value are installed
     * when there was one.
     */
    twostate predicate ModelCompiled(node: NodeId)
      reads this
    {
      && node in old(attrs)
      && attrs == old(attrs)[node := RemoveAttr(old(attrs[node]), VModel)]
      && watchers == old(watchers) && subs == old(subs) && text == old(text) && updates == old(updates)
      && match GetAttr(old(attrs[node]), VModel)
         case None => listeners == old(listeners) && inputValue == old(inputValue)
         case Some(name) =>
           && listeners == old(listeners)[node := name]
           && inputValue == old(inputValue)[node := RawData(name)]
    }

    /** The text branch of `compile`: bind the node when the interpolation pattern matches. */
    method CompileText(node: NodeId)
      requires Valid() && node in text
      modifies this`subs, this`watchers, this`target, this`text, this`updates
      ensures Valid() && TextCompiled(node)
    {
      var name := TextBinding(text[node]);
      if name.Some? {
        var _ := NewWatcher(node, name.value);
      }
    }

    /**
     * The element branch of `compile`: scan the attributes; at `v-model`,
     * install the input listener, copy `vm.data[name]` into the element's
     * value and remove the attribute.
     */
    method CompileModel(node: NodeId)
      requires Valid() && node in attrs
      modifies this`attrs, this`listeners, this`inputValue
      ensures Valid() && ModelCompiled(node)
      ensures Lacks(attrs[node], VModel)
    {
      var rest, binding := ScanAttributes(attrs[node]);
      RemoveAttrUnique(attrs[node], VModel);
      RemoveAttrKeeps(attrs[node], VModel);
      if binding.Some? {
        // the input listener writes the bound key
        listeners := listeners[node := binding.value];
        // the element shows the raw data of the bound key
        inputValue := inputValue[node := RawData(binding.value)];
      }
      attrs := attrs[node := rest];
    }

    /** `compile(node, vm)`: elements go to the `v-model` branch, text nodes to the interpolation branch. */
    method Compile(node: NodeId)
      requires Valid()
      modifies this`subs, this`watchers, this`target, this`text, this`updates
      modifies this`attrs, this`listeners, this`inputValue
      ensures Valid()
      ensures node in old(attrs) ==> ModelCompiled(node)
      ensures node in old(text) ==> TextCompiled(node)
      ensures node !in old(attrs) && node !in old(text) ==> unchanged(this)
    {
      if node in attrs {
        CompileModel(node);
      } else if node in text {
        CompileText(node);
      }
    }

    /**
     * The user types `s` into element `node`: its value becomes `s`, and its
     * `input` listener, if it has one, runs `vm[name] = s`.
     */
    method OnInput(node: NodeId, s: string)
      requires Valid() && node in attrs
      modifies this`store, this`plain, this`subs, this`watchers, this`text, this`updates, this`inputValue
      ensures Valid()
      ensures inputValue == old(inputValue)[node := Str(s)]
      ensures node in listeners ==> Assigned(listeners[node], Str(s))
      ensures forall k :: RawData(k) == old(RawData(k))
      ensures node !in listeners ==>
                store == old(store) && plain == old(plain) && subs == old(subs)
                && watchers == old(watchers) && text == old(text) && updates == old(updates)
    {
      inputValue := inputValue[node := Str(s)];
      if node in listeners {
        Set(listeners[node], Str(s));
      }
    }
  }
}
