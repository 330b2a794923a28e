/**
 * The event bus of the app (`CalendarController`): handlers registered under integer
 * keys receive the events whose type bit they support. While a dispatch is in progress,
 * registrations and removals are deferred and applied when the outermost dispatch ends.
 * One handler can be marked first: it is served before the others.
 *
 * A `LinkedHashMap<Integer, EventHandler>` is a sequence of entries with distinct keys
 * in insertion order; an `EventHandler` object is its identity and the mask its
 * `getSupportedEventTypes` answers.
 */
module CalendarController {
  import opened Wrappers

  /** `EventType`: one bit per kind of event. */
  const CREATE_EVENT: bv64 := 1
  const VIEW_EVENT: bv64 := 2
  const GO_TO: bv64 := 4
  const EVENTS_CHANGED: bv64 := 8
  const LAUNCH_MONTH_PICKER: bv64 := 16
  const CALENDAR_PERMISSION_GRANTED: bv64 := 32
  const EVENT_UPDATED: bv64 := 64

  /** `ViewType`. */
  const CURRENT := 0
  const AGENDA := 1
  const DAY := 2
  const MONTH := 3
  const YEAR := 4

  /** `EventInfo` flags in `extraLong`. */
  const EXTRA_NONE: bv64 := 0
  const EXTRA_CREATE_ALL_DAY: bv64 := 1
  const ALL_DAY_MASK: bv64 := 0x100
  const ATTENDEE_STATUS_NONE_MASK: bv64 := 0x01

  datatype Handler = Handler(id: int, supportedEventTypes: bv64)

  /** A map entry: the key and the handler, which may be null. */
  datatype Entry = Entry(key: int, handler: Option<Handler>)

  /** The registry state `sendEvent` and the (de)registration methods work on. */
  datatype Registry = Registry(
    eventHandlers: seq<Entry>,
    toBeRemoved: seq<int>,
    toBeAdded: seq<Entry>,
    first: Option<Entry>,
    toBeAddedFirst: Option<Entry>,
    dispatchInProgressCounter: nat)

  // ----- Insertion-ordered maps -----

  function Keys(s: seq<Entry>): (ks: seq<int>)
    ensures |ks| == |s| && forall i :: 0 <= i < |s| ==> ks[i] == s[i].key
  {
    if s == [] then [] else [s[0].key] + Keys(s[1..])
  }

  predicate DistinctKeys(s: seq<Entry>) {
    forall i, j :: 0 <= i < j < |s| ==> s[i].key != s[j].key
  }

  /** `put`: replace the value of an existing key where it stands, or append a new entry. */
  function Put(s: seq<Entry>, k: int, h: Option<Handler>): (r: seq<Entry>)
    ensures |r| == if k in Keys(s) then |s| else |s| + 1
  {
    if s == [] then [Entry(k, h)]
    else if s[0].key == k then [Entry(k, h)] + s[1..]
    else [s[0]] + Put(s[1..], k, h)
  }

  /** `remove`: drop the entry with the key, if any. */
  function Remove(s: seq<Entry>, k: int): (r: seq<Entry>)
    ensures |r| <= |s|
  {
    if s == [] then []
    else (if s[0].key == k then [] else [s[0]]) + Remove(s[1..], k)
  }

  /** `put` keeps the key order: an existing key stays where it is, a new key goes at the end. */
  lemma {:induction false} PutKeys(s: seq<Entry>, k: int, h: Option<Handler>)
    ensures Keys(Put(s, k, h)) == if k in Keys(s) then Keys(s) else Keys(s) + [k]
  {
    if s != [] && s[0].key != k {
      PutKeys(s[1..], k, h);
      assert Keys(s) == [s[0].key] + Keys(s[1..]);
      assert Keys(Put(s, k, h)) == [s[0].key] + Keys(Put(s[1..], k, h));
    }
  }

  /** After `put` the key maps to the new value and every other entry is untouched. */
  lemma {:induction false} PutMembers(s: seq<Entry>, k: int, h: Option<Handler>)
    requires DistinctKeys(s)
    ensures forall e :: e in Put(s, k, h) <==> e == Entry(k, h) || (e in s && e.key != k)
  {
    if s != [] {
      assert s == [s[0]] + s[1..];
      if s[0].key == k {
        forall e | e in s[1..] ensures e.key != k {
          var i :| 0 <= i < |s[1..]| && s[1..][i] == e;
          assert s[i + 1] == e;
        }
      } else {
        PutMembers(s[1..], k, h);
      }
    }
  }

  /** `put` keeps the keys distinct. */
  lemma PutMeaning(s: seq<Entry>, k: int, h: Option<Handler>)
    requires DistinctKeys(s)
    ensures DistinctKeys(Put(s, k, h))
    ensures forall e :: e in Put(s, k, h) <==> e == Entry(k, h) || (e in s && e.key != k)
    ensures Keys(Put(s, k, h)) == if k in Keys(s) then Keys(s) else Keys(s) + [k]
  {
    PutKeys(s, k, h);
    PutMembers(s, k, h);
    var r := Put(s, k, h);
    forall i, j | 0 <= i < j < |r| ensures r[i].key != r[j].key {
      assert Keys(r)[i] == r[i].key && Keys(r)[j] == r[j].key;
      if k !in Keys(s) && j == |s| {
        assert Keys(r)[i] == Keys(s)[i];
      } else {
        assert Keys(r)[i] == Keys(s)[i] && Keys(r)[j] == Keys(s)[j];
        assert Keys(s)[i] == s[i].key && Keys(s)[j] == s[j].key;
      }
    }
  }

  /** After `remove` no entry has the key, and every other entry is still there, keys distinct. */
  lemma RemoveMeaning(s: seq<Entry>, k: int)
    requires DistinctKeys(s)
    ensures DistinctKeys(Remove(s, k))
    ensures forall e :: e in Remove(s, k) <==> e in s && e.key != k
  {
    RemoveMembers(s, k);
    RemoveDistinct(s, k);
  }

  lemma {:induction false} RemoveMembers(s: seq<Entry>, k: int)
    ensures forall e :: e in Remove(s, k) <==> e in s && e.key != k
  {
    if s != [] {
      RemoveMembers(s[1..], k);
      assert s == [s[0]] + s[1..];
    }
  }

  lemma {:induction false} RemoveDistinct(s: seq<Entry>, k: int)
    requires DistinctKeys(s)
    ensures DistinctKeys(Remove(s, k))
  {
    if s != [] {
      RemoveDistinct(s[1..], k);
      var rest := Remove(s[1..], k);
      if s[0].key != k {
        RemoveMembers(s[1..], k);
        var r := Remove(s, k);
        assert r == [s[0]] + rest;
        forall i, j | 0 <= i < j < |r| ensures r[i].key != r[j].key {
          if i == 0 {
            assert r[j] == rest[j - 1] && rest[j - 1] in rest;
            var m :| 1 <= m < |s| && s[m] == r[j];
          } else {
            assert r[i] == rest[i - 1] && r[j] == rest[j - 1];
          }
        }
      }
    }
  }

  // ----- Delivery -----

  /** The handler takes events of this type: it is not null and its mask shares a bit with the type. */
  predicate Supports(h: Option<Handler>, eventType: bv64) {
    h.Some? && h.value.supportedEventTypes & eventType != 0
  }

  /** The first handler's key, when it is served first. */
  function FirstDelivery(first: Option<Entry>, toBeRemoved: seq<int>, eventType: bv64): seq<int> {
    if first.Some? && Supports(first.value.handler, eventType) && first.value.key !in toBeRemoved
    then [first.value.key] else []
  }

  /**
   * The keys the loop over `eventHandlers` serves: the first handler's key is skipped,
   * and so is every handler that does not support the type or is queued for removal.
   */
  function LoopDeliveries(entries: seq<Entry>, first: Option<Entry>, toBeRemoved: seq<int>, eventType: bv64): seq<int> {
    if entries == [] then []
    else
      var e := entries[|entries| - 1];
      LoopDeliveries(entries[..|entries| - 1], first, toBeRemoved, eventType)
      + (if (first.Some? && e.key == first.value.key) || !Supports(e.handler, eventType) || e.key in toBeRemoved
         then [] else [e.key])
  }

  /** The keys of the handlers that receive an event of this type, in the order they receive it. */
  function Deliveries(r: Registry, eventType: bv64): seq<int> {
    FirstDelivery(r.first, r.toBeRemoved, eventType) + LoopDeliveries(r.eventHandlers, r.first, r.toBeRemoved, eventType)
  }

  lemma {:induction false} LoopDeliveriesMeaning(entries: seq<Entry>, first: Option<Entry>, toBeRemoved: seq<int>, eventType: bv64)
    requires DistinctKeys(entries)
    ensures forall i, j :: 0 <= i < j < |LoopDeliveries(entries, first, toBeRemoved, eventType)| ==>
      LoopDeliveries(entries, first, toBeRemoved, eventType)[i] != LoopDeliveries(entries, first, toBeRemoved, eventType)[j]
    ensures forall k :: k in LoopDeliveries(entries, first, toBeRemoved, eventType) <==>
      exists e :: e in entries && e.key == k && Supports(e.handler, eventType) && k !in toBeRemoved
                  && !(first.Some? && k == first.value.key)
  {
    if entries != [] {
      var init := entries[..|entries| - 1];
      var e := entries[|entries| - 1];
      assert DistinctKeys(init);
      LoopDeliveriesMeaning(init, first, toBeRemoved, eventType);
      assert entries == init + [e];
      var d := LoopDeliveries(entries, first, toBeRemoved, eventType);
      var di := LoopDeliveries(init, first, toBeRemoved, eventType);
      forall k | k in di ensures k != e.key {
        var x :| x in init && x.key == k && Supports(x.handler, eventType) && k !in toBeRemoved
                 && !(first.Some? && k == first.value.key);
        var i :| 0 <= i < |init| && init[i] == x;
        assert entries[i] == x && entries[|entries| - 1] == e;
      }
      forall k
        ensures k in d <==> exists x :: x in entries && x.key == k && Supports(x.handler, eventType) && k !in toBeRemoved
                                       && !(first.Some? && k == first.value.key)
      {
        if k in d && k !in di {
          assert k == e.key;
        }
        if k !in d {
          forall x | x in entries && x.key == k
            ensures !(Supports(x.handler, eventType) && k !in toBeRemoved && !(first.Some? && k == first.value.key))
          {
            if x != e {
              assert x in init;
            } else {
              assert k == e.key;
            }
          }
        }
      }
    }
  }

  /**
   * Who receives an event: every served key was registered (as the first handler or in
   * the map) with a handler supporting the type and is not queued for removal; every
   * such handler in the map is served; the first handler comes first; nobody is served
   * twice.
   */
  lemma DeliveriesMeaning(r: Registry, eventType: bv64)
    requires DistinctKeys(r.eventHandlers)
    ensures var d := Deliveries(r, eventType);
      (forall i, j :: 0 <= i < j < |d| ==> d[i] != d[j])
      && (forall k :: k in d ==> k !in r.toBeRemoved)
      && (forall k :: k in d ==>
            (r.first.Some? && r.first.value.key == k && Supports(r.first.value.handler, eventType))
            || exists e :: e in r.eventHandlers && e.key == k && Supports(e.handler, eventType))
      && (forall e :: (e in r.eventHandlers && Supports(e.handler, eventType) && e.key !in r.toBeRemoved
                        && !(r.first.Some? && e.key == r.first.value.key)) ==> e.key in d)
      && ((r.first.Some? && Supports(r.first.value.handler, eventType) && r.first.value.key !in r.toBeRemoved)
            ==> d[0] == r.first.value.key)
  {
    LoopDeliveriesMeaning(r.eventHandlers, r.first, r.toBeRemoved, eventType);
    var d := Deliveries(r, eventType);
    var f := FirstDelivery(r.first, r.toBeRemoved, eventType);
    var l := LoopDeliveries(r.eventHandlers, r.first, r.toBeRemoved, eventType);
    assert d == f + l;
    forall i, j | 0 <= i < j < |d| ensures d[i] != d[j] {
      if i < |f| {
        assert d[j] == l[j - |f|] && d[j] in l;
      } else {
        assert d[i] == l[i - |f|] && d[j] == l[j - |f|];
      }
    }
  }

  // ----- Registration -----

  /**
   * `registerEventHandler`: the pending additions are emptied; during a dispatch the
   * entry becomes the only pending addition, otherwise it goes straight into the map.
   */
  function Register(r: Registry, key: int, h: Option<Handler>): Registry {
    if r.dispatchInProgressCounter > 0 then r.(toBeAdded := [Entry(key, h)])
    else r.(toBeAdded := [], eventHandlers := Put(r.eventHandlers, key, h))
  }

  /** `registerFirstEventHandler`: register, then mark the entry as the (pending) first handler. */
  function RegisterFirst(r: Registry, key: int, h: Option<Handler>): Registry {
    var r1 := Register(r, key, h);
    if r.dispatchInProgressCounter > 0 then r1.(toBeAddedFirst := Some(Entry(key, h)))
    else r1.(first := Some(Entry(key, h)))
  }

  /**
   * `deregisterEventHandler`: during a dispatch only queue the key; otherwise remove it
   * and forget the first handler if it has that key.
   */
  function Deregister(r: Registry, key: int): Registry {
    if r.dispatchInProgressCounter > 0 then r.(toBeRemoved := r.toBeRemoved + [key])
    else r.(eventHandlers := Remove(r.eventHandlers, key),
            first := if r.first.Some? && r.first.value.key == key then None else r.first)
  }

  /** `deregisterAllEventHandlers`: during a dispatch queue every key; otherwise empty the map and forget the first handler. */
  function DeregisterAll(r: Registry): Registry {
    if r.dispatchInProgressCounter > 0 then r.(toBeRemoved := r.toBeRemoved + Keys(r.eventHandlers))
    else r.(eventHandlers := [], first := None)
  }

  /** The registry invariant: keys are distinct in the map and in the pending additions. */
  predicate Valid(r: Registry) {
    DistinctKeys(r.eventHandlers) && DistinctKeys(r.toBeAdded)
  }

  /**
   * Outside a dispatch a registration takes effect at once; during one the map is left
   * alone and the registration is the single pending addition.
   */
  lemma RegisterMeaning(r: Registry, key: int, h: Option<Handler>)
    requires Valid(r)
    ensures Valid(Register(r, key, h))
    ensures r.dispatchInProgressCounter == 0 ==>
      Entry(key, h) in Register(r, key, h).eventHandlers && Register(r, key, h).toBeAdded == []
    ensures r.dispatchInProgressCounter > 0 ==>
      Register(r, key, h).eventHandlers == r.eventHandlers && Register(r, key, h).toBeAdded == [Entry(key, h)]
  {
    PutMeaning(r.eventHandlers, key, h);
  }

  /**
   * Outside a dispatch a deregistered key is gone from the map and is no longer the
   * first handler; during one it is only queued, and nothing is removed yet.
   */
  lemma DeregisterMeaning(r: Registry, key: int)
    requires Valid(r)
    ensures Valid(Deregister(r, key))
    ensures r.dispatchInProgressCounter == 0 ==>
      key !in Keys(Deregister(r, key).eventHandlers)
      && (Deregister(r, key).first.Some? ==> Deregister(r, key).first.value.key != key)
    ensures r.dispatchInProgressCounter > 0 ==>
      Deregister(r, key).eventHandlers == r.eventHandlers && key in Deregister(r, key).toBeRemoved
  {
    RemoveMeaning(r.eventHandlers, key);
    if r.dispatchInProgressCounter > 0 {
      assert Deregister(r, key).toBeRemoved[|r.toBeRemoved|] == key;
    }
  }

  // ----- The end of a dispatch -----

  /** The map after the queued removals, in the order they were queued. */
  function RemoveKeys(s: seq<Entry>, ks: seq<int>): seq<Entry> {
    if ks == [] then s else Remove(RemoveKeys(s, ks[..|ks| - 1]), ks[|ks| - 1])
  }

  /** The map after putting the pending additions, in their order. */
  function PutEntries(s: seq<Entry>, es: seq<Entry>): seq<Entry> {
    if es == [] then s
    else
      var e := es[|es| - 1];
      Put(PutEntries(s, es[..|es| - 1]), e.key, e.handler)
  }

  /** The first handler after the removals: forgotten when its key was queued. */
  function FirstAfterRemovals(first: Option<Entry>, ks: seq<int>): Option<Entry> {
    if first.Some? && first.value.key in ks then None else first
  }

  /**
   * The state after the outermost dispatch ends: first the queued removals (forgetting
   * the first handler when its key is among them), then the pending first handler, then
   * the pending additions, which are then emptied.
   */
  function EndDispatch(r: Registry): Registry {
    var afterRemovals := RemoveKeys(r.eventHandlers, r.toBeRemoved);
    var first1 := FirstAfterRemovals(r.first, r.toBeRemoved);
    var first2 := if r.toBeAddedFirst.Some? then r.toBeAddedFirst else first1;
    Registry(PutEntries(afterRemovals, r.toBeAdded), [], [], first2, None, 0)
  }

  /** The same, as the code stands: the pending additions are not emptied. */
  function EndDispatchAsWritten(r: Registry): Registry {
    EndDispatch(r).(toBeAdded := r.toBeAdded)
  }

  /** `sendEvent`'s bookkeeping around the delivery loop. */
  function Dispatched(r: Registry): Registry {
    if r.dispatchInProgressCounter == 0 then EndDispatch(r) else r
  }

  lemma {:induction false} RemoveKeysMeaning(s: seq<Entry>, ks: seq<int>)
    requires DistinctKeys(s)
    ensures DistinctKeys(RemoveKeys(s, ks))
    ensures forall e :: e in RemoveKeys(s, ks) <==> e in s && e.key !in ks
  {
    if ks != [] {
      var init := ks[..|ks| - 1];
      RemoveKeysMeaning(s, init);
      RemoveMeaning(RemoveKeys(s, init), ks[|ks| - 1]);
      assert ks == init + [ks[|ks| - 1]];
    }
  }

  lemma {:induction false} PutEntriesMeaning(s: seq<Entry>, es: seq<Entry>)
    requires DistinctKeys(s) && DistinctKeys(es)
    ensures DistinctKeys(PutEntries(s, es))
    ensures forall e :: e in PutEntries(s, es) <==> e in es || (e in s && e.key !in Keys(es))
  {
    if es != [] {
      var init := es[..|es| - 1];
      var last := es[|es| - 1];
      LastKeyIsNew(es);
      KeysSnoc(es);
      PutEntriesMeaning(s, init);
      PutMeaning(PutEntries(s, init), last.key, last.handler);
    }
  }

  lemma {:induction false} KeysSnoc(es: seq<Entry>)
    requires es != []
    ensures Keys(es) == Keys(es[..|es| - 1]) + [es[|es| - 1].key]
    decreases |es|
  {
    var n := |es| - 1;
    if n == 0 {
      assert es[..n] == [];
    } else {
      KeysSnoc(es[1..]);
      assert es[1..][..n - 1] == es[..n][1..];
      assert es[..n][0] == es[0];
    }
  }

  /** Splitting off the last of entries with distinct keys: the rest keep distinct keys, none of them the last one's. */
  lemma LastKeyIsNew(es: seq<Entry>)
    requires DistinctKeys(es) && es != []
    ensures DistinctKeys(es[..|es| - 1])
    ensures forall e :: e in es <==> e in es[..|es| - 1] || e == es[|es| - 1]
    ensures forall e :: e in es[..|es| - 1] ==> e.key != es[|es| - 1].key
  {
    var init := es[..|es| - 1];
    assert es == init + [es[|es| - 1]];
    forall e | e in init ensures e.key != es[|es| - 1].key {
      var i :| 0 <= i < |init| && init[i] == e;
      assert es[i] == e;
    }
  }

  /**
   * When the outermost dispatch ends, a key queued for removal is gone unless it is
   * also a pending addition, every pending addition is in the map, the pending first
   * handler (if any) becomes the first handler, and nothing stays pending.
   */
  lemma EndDispatchMeaning(r: Registry)
    requires Valid(r)
    ensures var n := EndDispatch(r);
      Valid(n) && n.toBeRemoved == [] && n.toBeAdded == [] && n.toBeAddedFirst.None?
      && (forall e :: e in r.toBeAdded ==> e in n.eventHandlers)
      && (forall k :: k in r.toBeRemoved && k !in Keys(r.toBeAdded) ==> k !in Keys(n.eventHandlers))
      && (forall e :: e in r.eventHandlers && e.key !in r.toBeRemoved && e.key !in Keys(r.toBeAdded) ==> e in n.eventHandlers)
      && (r.toBeAddedFirst.Some? ==> n.first == r.toBeAddedFirst)
      && (r.toBeAddedFirst.None? ==> n.first == FirstAfterRemovals(r.first, r.toBeRemoved))
  {
    var afterRemovals := RemoveKeys(r.eventHandlers, r.toBeRemoved);
    RemoveKeysMeaning(r.eventHandlers, r.toBeRemoved);
    PutEntriesMeaning(afterRemovals, r.toBeAdded);
  }

  /**
   * A registration made while a handler is being served lands in the map when that
   * dispatch ends, whatever was queued for removal.
   */
  lemma DeferredRegistrationLands(r: Registry, key: int, h: Option<Handler>)
    requires Valid(r) && r.dispatchInProgressCounter == 1
    ensures var n := EndDispatch(Register(r, key, h));
      Entry(key, h) in n.eventHandlers && n.toBeAdded == []
  {
    RegisterMeaning(r, key, h);
    EndDispatchMeaning(Register(r, key, h));
  }

  /**
   * A removal queued while a handler is being served takes effect when that dispatch
   * ends, unless the same key is the pending addition.
   */
  lemma DeferredRemovalLands(r: Registry, key: int)
    requires Valid(r) && r.dispatchInProgressCounter == 1 && key !in Keys(r.toBeAdded)
    ensures key !in Keys(EndDispatch(Deregister(r, key)).eventHandlers)
  {
    DeregisterMeaning(r, key);
    EndDispatchMeaning(Deregister(r, key));
  }

  /**
   * As written, a registration deferred during one dispatch is put into the map again at
   * the end of every later dispatch: after the handler is deregistered outside a
   * dispatch, the next event brings it back.
   */
  lemma AsWrittenResurrectsHandler()
    ensures var h := Some(Handler(1, EVENTS_CHANGED));
      var r0 := Registry([], [], [], None, None, 1);
      var r1 := EndDispatchAsWritten(Register(r0, 7, h));
      var r2 := Deregister(r1, 7);
      var r3 := EndDispatchAsWritten(r2.(dispatchInProgressCounter := 1));
      7 in Keys(r1.eventHandlers) && 7 !in Keys(r2.eventHandlers) && 7 in Keys(r3.eventHandlers)
  {
    var h := Some(Handler(1, EVENTS_CHANGED));
    var r0 := Registry([], [], [], None, None, 1);
    var r1 := EndDispatchAsWritten(Register(r0, 7, h));
    assert r1.eventHandlers == [Entry(7, h)];
    assert Remove(r1.eventHandlers, 7) == [];
    var r2 := Deregister(r1, 7);
    var r3 := EndDispatchAsWritten(r2.(dispatchInProgressCounter := 1));
    assert r3.eventHandlers == [Entry(7, h)];
  }

  /** With the pending additions emptied, a deregistered handler stays away through later dispatches. */
  lemma CorrectedKeepsHandlerAway(r: Registry, key: int)
    requires Valid(r) && r.dispatchInProgressCounter == 0 && r.toBeAdded == []
    ensures var r2 := Deregister(r, key);
      key !in Keys(EndDispatch(r2.(dispatchInProgressCounter := 1)).eventHandlers)
  {
    DeregisterMeaning(r, key);
    var r2 := Deregister(r, key);
    EndDispatchMeaning(r2.(dispatchInProgressCounter := 1));
    EndDispatchKeys(r2.(dispatchInProgressCounter := 1), key);
  }

  /** A key absent from the map, not queued and not pending stays absent at the end of a dispatch. */
  lemma EndDispatchKeys(r: Registry, key: int)
    requires Valid(r) && key !in Keys(r.eventHandlers) && key !in Keys(r.toBeAdded)
    ensures key !in Keys(EndDispatch(r).eventHandlers)
  {
    RemoveKeysMeaning(r.eventHandlers, r.toBeRemoved);
    PutEntriesMeaning(RemoveKeys(r.eventHandlers, r.toBeRemoved), r.toBeAdded);
  }

  // ----- Handlers that act while they are served -----

  /**
   * A call a handler makes on the controller from inside `handleEvent`: the four
   * registration methods. A handler's reaction is the sequence of calls it makes.
   */
  datatype RegistryOp =
    | RegisterOp(key: int, handler: Option<Handler>)
    | RegisterFirstOp(key: int, handler: Option<Handler>)
    | DeregisterOp(key: int)
    | DeregisterAllOp

  function ApplyOp(r: Registry, op: RegistryOp): Registry {
    match op
    case RegisterOp(key, h) => Register(r, key, h)
    case RegisterFirstOp(key, h) => RegisterFirst(r, key, h)
    case DeregisterOp(key) => Deregister(r, key)
    case DeregisterAllOp => DeregisterAll(r)
  }

  /** The registry after the calls of one reaction, in their order. */
  function ApplyOps(r: Registry, ops: seq<RegistryOp>): Registry {
    if ops == [] then r else ApplyOp(ApplyOps(r, ops[..|ops| - 1]), ops[|ops| - 1])
  }

  /** No key is served twice. */
  predicate NoRepeats(d: seq<int>) {
    forall i, j :: 0 <= i < j < |d| ==> d[i] != d[j]
  }

  /** The keys served so far and the registry they left behind. */
  datatype Served = Served(delivered: seq<int>, registry: Registry)

  /** The loop passes over an entry: it is the first handler, does not take the type, or is queued for removal now. */
  predicate Skipped(e: Entry, r: Registry, eventType: bv64) {
    (r.first.Some? && e.key == r.first.value.key) || !Supports(e.handler, eventType) || e.key in r.toBeRemoved
  }

  /**
   * The loop over `entries` with reactions: each entry is checked against the registry
   * as the handlers served before it left it, and a served handler's reaction is applied
   * before the next entry is looked at.
   */
  function ServeLoop(entries: seq<Entry>, r: Registry, eventType: bv64, reacts: Handler -> seq<RegistryOp>): Served {
    if entries == [] then Served([], r)
    else
      var s := ServeLoop(entries[..|entries| - 1], r, eventType, reacts);
      var e := entries[|entries| - 1];
      if Skipped(e, s.registry, eventType) then s
      else Served(s.delivered + [e.key], ApplyOps(s.registry, reacts(e.handler.value)))
  }

  /** The delivery part of a dispatch with reactions: the first handler, then the loop over the map. */
  function Serve(r: Registry, eventType: bv64, reacts: Handler -> seq<RegistryOp>): Served {
    var l := LoopPart(r, eventType, reacts);
    Served(FirstDelivery(r.first, r.toBeRemoved, eventType) + l.delivered, l.registry)
  }

  /** A whole `sendEvent` dispatch: count it in, serve, count it out, and finish it if it is the outermost. */
  function Dispatch(r: Registry, eventType: bv64, reacts: Handler -> seq<RegistryOp>): Served {
    var s := Serve(r.(dispatchInProgressCounter := r.dispatchInProgressCounter + 1), eventType, reacts);
    Served(s.delivered, Dispatched(s.registry.(dispatchInProgressCounter := r.dispatchInProgressCounter)))
  }

  /**
   * During a dispatch a reaction leaves the map, the first handler and the counter alone;
   * it can only append to the removal queue (and set the pending additions).
   */
  lemma {:induction false} ApplyOpsDeferred(r: Registry, ops: seq<RegistryOp>)
    requires r.dispatchInProgressCounter > 0
    ensures var n := ApplyOps(r, ops);
      n.eventHandlers == r.eventHandlers && n.first == r.first
      && n.dispatchInProgressCounter == r.dispatchInProgressCounter && r.toBeRemoved <= n.toBeRemoved
  {
    if ops != [] {
      ApplyOpsDeferred(r, ops[..|ops| - 1]);
      var m := ApplyOps(r, ops[..|ops| - 1]);
      assert m.toBeRemoved <= ApplyOp(m, ops[|ops| - 1]).toBeRemoved;
    }
  }

  /** The same for the whole loop: the map and the first handler it looks at stay as they were. */
  lemma {:induction false} ServeLoopDeferred(entries: seq<Entry>, r: Registry, eventType: bv64, reacts: Handler -> seq<RegistryOp>)
    requires r.dispatchInProgressCounter > 0
    ensures var n := ServeLoop(entries, r, eventType, reacts).registry;
      n.eventHandlers == r.eventHandlers && n.first == r.first
      && n.dispatchInProgressCounter == r.dispatchInProgressCounter && r.toBeRemoved <= n.toBeRemoved
  {
    if entries != [] {
      var s := ServeLoop(entries[..|entries| - 1], r, eventType, reacts);
      ServeLoopDeferred(entries[..|entries| - 1], r, eventType, reacts);
      var e := entries[|entries| - 1];
      if !Skipped(e, s.registry, eventType) {
        ApplyOpsDeferred(s.registry, reacts(e.handler.value));
      }
    }
  }

  /** A longer removal queue serves fewer handlers. */
  lemma {:induction false} LoopDeliveriesAntitone(entries: seq<Entry>, first: Option<Entry>, q1: seq<int>, q2: seq<int>, eventType: bv64)
    requires q1 <= q2
    ensures forall k :: k in LoopDeliveries(entries, first, q2, eventType) ==> k in LoopDeliveries(entries, first, q1, eventType)
  {
    if entries != [] {
      LoopDeliveriesAntitone(entries[..|entries| - 1], first, q1, q2, eventType);
      var e := entries[|entries| - 1];
      if e.key in q1 {
        var i :| 0 <= i < |q1| && q1[i] == e.key;
        assert q2[i] == e.key;
      }
    }
  }

  /**
   * Who the loop serves when handlers react: nobody twice; only handlers the loop would
   * serve with the queue as it was when the dispatch began; and every handler it would
   * serve with the queue as it is at the end.
   */
  lemma {:induction false} ServeLoopMeaning(entries: seq<Entry>, r: Registry, eventType: bv64, reacts: Handler -> seq<RegistryOp>)
    requires r.dispatchInProgressCounter > 0 && DistinctKeys(entries)
    ensures var s := ServeLoop(entries, r, eventType, reacts);
      NoRepeats(s.delivered)
      && (forall k :: k in s.delivered ==> k in LoopDeliveries(entries, r.first, r.toBeRemoved, eventType))
      && (forall k :: k in LoopDeliveries(entries, r.first, s.registry.toBeRemoved, eventType) ==> k in s.delivered)
  {
    if entries != [] {
      var init, e := entries[..|entries| - 1], entries[|entries| - 1];
      LastKeyIsNew(entries);
      ServeLoopMeaning(init, r, eventType, reacts);
      ServeLoopDeferred(init, r, eventType, reacts);
      var s0 := ServeLoop(init, r, eventType, reacts);
      if !Skipped(e, s0.registry, eventType) {
        var n := ApplyOps(s0.registry, reacts(e.handler.value));
        ApplyOpsDeferred(s0.registry, reacts(e.handler.value));
        LoopDeliveriesAntitone(init, r.first, s0.registry.toBeRemoved, n.toBeRemoved, eventType);
        LoopDeliveriesMeaning(init, r.first, r.toBeRemoved, eventType);
        forall k | k in s0.delivered ensures k != e.key {
          assert k in LoopDeliveries(init, r.first, r.toBeRemoved, eventType);
        }
        var d := s0.delivered + [e.key];
        forall i, j | 0 <= i < j < |d| ensures d[i] != d[j] {
          assert d[i] == s0.delivered[i] && s0.delivered[i] in s0.delivered;
          if j < |d| - 1 {
            assert d[j] == s0.delivered[j];
          }
        }
      }
    }
  }

  /** The registry the first handler's reaction leaves, which the loop starts from. */
  function AfterFirst(r: Registry, eventType: bv64, reacts: Handler -> seq<RegistryOp>): Registry {
    if FirstDelivery(r.first, r.toBeRemoved, eventType) == [] then r
    else ApplyOps(r, reacts(r.first.value.handler.value))
  }

  /** The loop over the map, from the registry the first handler's reaction left. */
  function LoopPart(r: Registry, eventType: bv64, reacts: Handler -> seq<RegistryOp>): Served {
    var r1 := AfterFirst(r, eventType, reacts);
    ServeLoop(r1.eventHandlers, r1, eventType, reacts)
  }

  /** During a dispatch, serving leaves the map, the first handler and the counter alone and only appends removals. */
  lemma ServeDeferred(r: Registry, eventType: bv64, reacts: Handler -> seq<RegistryOp>)
    requires r.dispatchInProgressCounter > 0
    ensures var r1, n := AfterFirst(r, eventType, reacts), Serve(r, eventType, reacts).registry;
      r1.eventHandlers == r.eventHandlers && r1.first == r.first
      && r1.dispatchInProgressCounter == r.dispatchInProgressCounter && r.toBeRemoved <= r1.toBeRemoved
      && n.eventHandlers == r.eventHandlers && n.first == r.first
      && n.dispatchInProgressCounter == r.dispatchInProgressCounter && r.toBeRemoved <= n.toBeRemoved
  {
    var r1 := AfterFirst(r, eventType, reacts);
    if FirstDelivery(r.first, r.toBeRemoved, eventType) != [] {
      ApplyOpsDeferred(r, reacts(r.first.value.handler.value));
    }
    ServeLoopDeferred(r1.eventHandlers, r1, eventType, reacts);
  }

  /** The loop part of a dispatch, stated against the map and the queues at its two ends. */
  lemma ServeLoopPart(r: Registry, eventType: bv64, reacts: Handler -> seq<RegistryOp>)
    requires r.dispatchInProgressCounter > 0 && DistinctKeys(r.eventHandlers)
    ensures NoRepeats(LoopPart(r, eventType, reacts).delivered)
    ensures forall k :: k in LoopPart(r, eventType, reacts).delivered ==>
      exists e :: e in r.eventHandlers && e.key == k && Supports(e.handler, eventType) && k !in r.toBeRemoved
                  && !(r.first.Some? && k == r.first.value.key)
    ensures forall e :: (e in r.eventHandlers && Supports(e.handler, eventType)
                         && e.key !in LoopPart(r, eventType, reacts).registry.toBeRemoved
                         && !(r.first.Some? && e.key == r.first.value.key)) ==> e.key in LoopPart(r, eventType, reacts).delivered
  {
    var r1 := AfterFirst(r, eventType, reacts);
    ServeDeferred(r, eventType, reacts);
    var l := ServeLoop(r1.eventHandlers, r1, eventType, reacts);
    assert LoopPart(r, eventType, reacts) == l;
    ServeLoopMeaning(r1.eventHandlers, r1, eventType, reacts);
    LoopDeliveriesAntitone(r.eventHandlers, r.first, r.toBeRemoved, r1.toBeRemoved, eventType);
    LoopDeliveriesMeaning(r.eventHandlers, r.first, r.toBeRemoved, eventType);
    LoopDeliveriesMeaning(r.eventHandlers, r.first, l.registry.toBeRemoved, eventType);
  }

  /**
   * Who a dispatch serves when handlers react, and what it leaves: the map and the first
   * handler are untouched and removals are only appended; nobody is served twice; a served
   * key was not queued for removal when the dispatch began and is the first handler or in
   * the map with a handler taking the type; every other such handler of the map still not
   * queued at the end was served; the first handler comes first.
   */
  lemma ServeMeaning(r: Registry, eventType: bv64, reacts: Handler -> seq<RegistryOp>)
    requires r.dispatchInProgressCounter > 0 && DistinctKeys(r.eventHandlers)
    ensures var s := Serve(r, eventType, reacts);
      var d, n := s.delivered, s.registry;
      n.eventHandlers == r.eventHandlers && n.first == r.first
      && n.dispatchInProgressCounter == r.dispatchInProgressCounter && r.toBeRemoved <= n.toBeRemoved
      && (forall i, j :: 0 <= i < j < |d| ==> d[i] != d[j])
      && (forall k :: k in d ==> k !in r.toBeRemoved)
      && (forall k :: k in d ==>
            (r.first.Some? && r.first.value.key == k && Supports(r.first.value.handler, eventType))
            || exists e :: e in r.eventHandlers && e.key == k && Supports(e.handler, eventType))
      && (forall e :: (e in r.eventHandlers && Supports(e.handler, eventType) && e.key !in n.toBeRemoved
                        && !(r.first.Some? && e.key == r.first.value.key)) ==> e.key in d)
      && ((r.first.Some? && Supports(r.first.value.handler, eventType) && r.first.value.key !in r.toBeRemoved)
            ==> d[0] == r.first.value.key)
  {
    ServeDeferred(r, eventType, reacts);
    ServeLoopPart(r, eventType, reacts);
    DistinctAfterFirst(FirstDelivery(r.first, r.toBeRemoved, eventType), LoopPart(r, eventType, reacts).delivered, r.first);
  }

  /** The first handler's key followed by keys that are all different from it and from each other. */
  lemma DistinctAfterFirst(f: seq<int>, l: seq<int>, first: Option<Entry>)
    requires f == [] || (first.Some? && f == [first.value.key])
    requires NoRepeats(l)
    requires forall k :: k in l ==> !(first.Some? && k == first.value.key)
    ensures NoRepeats(f + l)
  {
    var d := f + l;
    forall i, j | 0 <= i < j < |d| ensures d[i] != d[j] {
      if i < |f| {
        assert d[j] == l[j - |f|] && d[j] in l;
      } else {
        assert d[i] == l[i - |f|] && d[j] == l[j - |f|];
      }
    }
  }

  /** Handlers that make no calls get exactly the deliveries of the plain loop, and the registry stays as it was. */
  lemma ServeWithoutReactions(r: Registry, eventType: bv64, reacts: Handler -> seq<RegistryOp>)
    requires forall h :: reacts(h) == []
    ensures Serve(r, eventType, reacts) == Served(Deliveries(r, eventType), r)
  {
    ServeLoopWithoutReactions(r.eventHandlers, r, eventType, reacts);
  }

  lemma {:induction false} ServeLoopWithoutReactions(entries: seq<Entry>, r: Registry, eventType: bv64, reacts: Handler -> seq<RegistryOp>)
    requires forall h :: reacts(h) == []
    ensures ServeLoop(entries, r, eventType, reacts) == Served(LoopDeliveries(entries, r.first, r.toBeRemoved, eventType), r)
  {
    if entries != [] {
      ServeLoopWithoutReactions(entries[..|entries| - 1], r, eventType, reacts);
    }
  }

  /** The registry invariant survives every call a reaction can make. */
  lemma {:induction false} ApplyOpsValid(r: Registry, ops: seq<RegistryOp>)
    requires Valid(r)
    ensures Valid(ApplyOps(r, ops))
  {
    if ops != [] {
      ApplyOpsValid(r, ops[..|ops| - 1]);
      var m := ApplyOps(r, ops[..|ops| - 1]);
      match ops[|ops| - 1]
      case RegisterOp(key, h) => RegisterMeaning(m, key, h);
      case RegisterFirstOp(key, h) => RegisterMeaning(m, key, h);
      case DeregisterOp(key) => DeregisterMeaning(m, key);
      case DeregisterAllOp =>
    }
  }

  lemma {:induction false} ServeLoopValid(entries: seq<Entry>, r: Registry, eventType: bv64, reacts: Handler -> seq<RegistryOp>)
    requires Valid(r)
    ensures Valid(ServeLoop(entries, r, eventType, reacts).registry)
  {
    if entries != [] {
      ServeLoopValid(entries[..|entries| - 1], r, eventType, reacts);
      var s := ServeLoop(entries[..|entries| - 1], r, eventType, reacts);
      var e := entries[|entries| - 1];
      if !Skipped(e, s.registry, eventType) {
        ApplyOpsValid(s.registry, reacts(e.handler.value));
      }
    }
  }

  /** A dispatch keeps the registry invariant, whatever the handlers do while they are served. */
  lemma DispatchValid(r: Registry, eventType: bv64, reacts: Handler -> seq<RegistryOp>)
    requires Valid(r)
    ensures Valid(Dispatch(r, eventType, reacts).registry)
  {
    var r0 := r.(dispatchInProgressCounter := r.dispatchInProgressCounter + 1);
    var r1 := AfterFirst(r0, eventType, reacts);
    if FirstDelivery(r0.first, r0.toBeRemoved, eventType) != [] {
      ApplyOpsValid(r0, reacts(r0.first.value.handler.value));
    }
    ServeLoopValid(r1.eventHandlers, r1, eventType, reacts);
    var n := Serve(r0, eventType, reacts).registry.(dispatchInProgressCounter := r.dispatchInProgressCounter);
    if r.dispatchInProgressCounter == 0 {
      EndDispatchMeaning(n);
    }
  }

  /** An example: handlers 1 and 2 take `GO_TO`; while it is served, handler 1 deregisters key 2. */
  const EXAMPLE_H1 := Handler(1, GO_TO)
  const EXAMPLE_H2 := Handler(2, GO_TO)
  const EXAMPLE_MAP := [Entry(1, Some(EXAMPLE_H1)), Entry(2, Some(EXAMPLE_H2))]
  const EXAMPLE_REACTS := (h: Handler) => if h.id == 1 then [DeregisterOp(2)] else []

  /** Serving handler 1 queues key 2 for removal. */
  lemma ExampleFirstServed()
    ensures ServeLoop(EXAMPLE_MAP[..1], Registry(EXAMPLE_MAP, [], [], None, None, 1), GO_TO, EXAMPLE_REACTS)
      == Served([1], Registry(EXAMPLE_MAP, [2], [], None, None, 1))
  {
    var r0 := Registry(EXAMPLE_MAP, [], [], None, None, 1);
    var es := EXAMPLE_MAP[..1];
    assert es == [Entry(1, Some(EXAMPLE_H1))] && es[..|es| - 1] == [];
    assert ServeLoop([], r0, GO_TO, EXAMPLE_REACTS) == Served([], r0);
    assert !Skipped(es[0], r0, GO_TO) by {
      assert GO_TO & GO_TO != 0;
    }
    var ops := EXAMPLE_REACTS(EXAMPLE_H1);
    assert ops == [DeregisterOp(2)] && ops[..|ops| - 1] == [];
    assert ApplyOps(r0, ops) == Deregister(r0, 2);
  }

  /** Handler 2 is then skipped: its key is queued by the time the loop reaches it. */
  lemma ExampleSecondSkipped()
    ensures ServeLoop(EXAMPLE_MAP, Registry(EXAMPLE_MAP, [], [], None, None, 1), GO_TO, EXAMPLE_REACTS)
      == Served([1], Registry(EXAMPLE_MAP, [2], [], None, None, 1))
  {
    ExampleFirstServed();
    var r1 := Registry(EXAMPLE_MAP, [2], [], None, None, 1);
    assert EXAMPLE_MAP[..|EXAMPLE_MAP| - 1] == EXAMPLE_MAP[..1];
    assert Skipped(EXAMPLE_MAP[1], r1, GO_TO);
  }

  /**
   * A handler that deregisters a later one while it is served keeps that one from being
   * served, and the outermost dispatch then removes it from the map.
   */
  lemma RemovalDuringDispatch()
    ensures Dispatch(Registry(EXAMPLE_MAP, [], [], None, None, 0), GO_TO, EXAMPLE_REACTS)
      == Served([1], Registry([Entry(1, Some(EXAMPLE_H1))], [], [], None, None, 0))
  {
    var r := Registry(EXAMPLE_MAP, [], [], None, None, 0);
    var r0 := r.(dispatchInProgressCounter := 1);
    var r1 := Registry(EXAMPLE_MAP, [2], [], None, None, 1);
    assert FirstDelivery(None, [], GO_TO) == [];
    assert AfterFirst(r0, GO_TO, EXAMPLE_REACTS) == r0;
    ExampleSecondSkipped();
    assert Serve(r0, GO_TO, EXAMPLE_REACTS) == Served([1], r1);
    assert [2][..0] == [];
    assert Remove(EXAMPLE_MAP, 2) == [Entry(1, Some(EXAMPLE_H1))];
    assert RemoveKeys(EXAMPLE_MAP, [2]) == [Entry(1, Some(EXAMPLE_H1))];
  }

  // ----- EventInfo flags -----

  /** `buildViewExtraLong`: the all-day bit when all-day, and always the "no attendee response" bit. */
  function BuildViewExtraLong(allDay: bool): (extra: bv64)
    ensures extra & ATTENDEE_STATUS_NONE_MASK != 0
    ensures (extra & ALL_DAY_MASK != 0) == allDay
  {
    var extra: bv64 := if allDay then ALL_DAY_MASK else 0;
    extra | ATTENDEE_STATUS_NONE_MASK
  }

  /** `isAllDay`: only a view event can be all-day, and then when its all-day bit is set. */
  function IsAllDay(eventType: bv64, extraLong: bv64): (r: bool)
    ensures r ==> eventType == VIEW_EVENT
  {
    if eventType != VIEW_EVENT then false
    else extraLong & ALL_DAY_MASK != 0
  }

  /** A view event built with `buildViewExtraLong` reports back the all-day flag it was built with. */
  lemma ExtraLongRoundTrip(allDay: bool)
    ensures IsAllDay(VIEW_EVENT, BuildViewExtraLong(allDay)) == allDay
  {
  }

  /** What `sendEvent` starts when no handler took the event. */
  datatype Launch = NoLaunch | LaunchCreateEvent | LaunchViewEvent

  // ----- The controller -----

  class Controller {
    var eventHandlers: seq<Entry>
    var toBeRemoved: seq<int>
    var toBeAdded: seq<Entry>
    var first: Option<Entry>
    var toBeAddedFirst: Option<Entry>
    var dispatchInProgressCounter: nat
    var viewType: int
    var eventId: int

    function Snapshot(): Registry
      reads this
    {
      Registry(eventHandlers, toBeRemoved, toBeAdded, first, toBeAddedFirst, dispatchInProgressCounter)
    }

    constructor()
      ensures Snapshot() == Registry([], [], [], None, None, 0) && viewType == -1 && eventId == -1
    {
      eventHandlers, toBeRemoved, toBeAdded := [], [], [];
      first, toBeAddedFirst := None, None;
      dispatchInProgressCounter := 0;
      viewType, eventId := -1, -1;
    }

    method RegisterEventHandler(key: int, h: Option<Handler>)
      modifies this`eventHandlers, this`toBeAdded
      ensures Snapshot() == Register(old(Snapshot()), key, h)
    {
      toBeAdded := [];
      if dispatchInProgressCounter > 0 {
        toBeAdded := [Entry(key, h)];
      } else {
        eventHandlers := Put(eventHandlers, key, h);
      }
    }

    method RegisterFirstEventHandler(key: int, h: Option<Handler>)
      modifies this`eventHandlers, this`toBeAdded, this`first, this`toBeAddedFirst
      ensures Snapshot() == RegisterFirst(old(Snapshot()), key, h)
    {
      RegisterEventHandler(key, h);
      if dispatchInProgressCounter > 0 {
        toBeAddedFirst := Some(Entry(key, h));
      } else {
        first := Some(Entry(key, h));
      }
    }

    method DeregisterEventHandler(key: int)
      modifies this`eventHandlers, this`toBeRemoved, this`first
      ensures Snapshot() == Deregister(old(Snapshot()), key)
    {
      if dispatchInProgressCounter > 0 {
        toBeRemoved := toBeRemoved + [key];
      } else {
        eventHandlers := Remove(eventHandlers, key);
        if first.Some? && first.value.key == key {
          first := None;
        }
      }
    }

    method DeregisterAllEventHandlers()
      modifies this`eventHandlers, this`toBeRemoved, this`first
      ensures Snapshot() == DeregisterAll(old(Snapshot()))
    {
      if dispatchInProgressCounter > 0 {
        toBeRemoved := toBeRemoved + Keys(eventHandlers);
      } else {
        eventHandlers := [];
        first := None;
      }
    }

    /**
     * A handler's `handleEvent`, as far as the controller sees it: the registration calls
     * it makes, one after the other.
     */
    method React(ops: seq<RegistryOp>)
      modifies this`eventHandlers, this`toBeRemoved, this`toBeAdded, this`first, this`toBeAddedFirst
      ensures Snapshot() == ApplyOps(old(Snapshot()), ops)
    {
      ghost var r0 := Snapshot();
      for i := 0 to |ops|
        invariant Snapshot() == ApplyOps(r0, ops[..i])
      {
        assert ops[..i + 1][..i] == ops[..i];
        match ops[i]
        case RegisterOp(key, h) => RegisterEventHandler(key, h);
        case RegisterFirstOp(key, h) => RegisterFirstEventHandler(key, h);
        case DeregisterOp(key) => DeregisterEventHandler(key);
        case DeregisterAllOp => DeregisterAllEventHandlers();
      }
      assert ops[..|ops|] == ops;
    }

    /**
     * The delivery part of `sendEvent`: serve the first handler, then every other
     * handler of the map in order, skipping those that do not take the type or are
     * queued for removal by then; each served handler reacts before the next is looked at.
     */
    method Deliver(eventType: bv64, reacts: Handler -> seq<RegistryOp>) returns (delivered: seq<int>)
      requires dispatchInProgressCounter > 0
      modifies this`eventHandlers, this`toBeRemoved, this`toBeAdded, this`first, this`toBeAddedFirst
      ensures Served(delivered, Snapshot()) == Serve(old(Snapshot()), eventType, reacts)
    {
      delivered := [];
      if first.Some? && Supports(first.value.handler, eventType) && first.value.key !in toBeRemoved {
        delivered := [first.value.key];
        React(reacts(first.value.handler.value));
      }
      ghost var r1 := Snapshot();
      var entries := eventHandlers;
      var served := [];
      for i := 0 to |entries|
        invariant Served(served, Snapshot()) == ServeLoop(entries[..i], r1, eventType, reacts)
      {
        assert entries[..i + 1][..i] == entries[..i];
        var key := entries[i].key;
        if !(first.Some? && key == first.value.key) && Supports(entries[i].handler, eventType) && key !in toBeRemoved {
          served := served + [key];
          React(reacts(entries[i].handler.value));
        }
      }
      assert entries[..|entries|] == entries;
      delivered := delivered + served;
    }

    /**
     * The end of the outermost dispatch: apply the queued removals, then the pending
     * first handler, then the pending additions, and empty the queues.
     */
    method FinishDispatch()
      requires dispatchInProgressCounter == 0
      modifies this`eventHandlers, this`toBeRemoved, this`toBeAdded, this`first, this`toBeAddedFirst
      ensures Snapshot() == EndDispatch(old(Snapshot()))
    {
      ApplyRemovals();
      toBeRemoved := [];
      if toBeAddedFirst.Some? {
        first := toBeAddedFirst;
        toBeAddedFirst := None;
      }
      ApplyAdditions();
      toBeAdded := [];
    }

    /** Remove every queued key, forgetting the first handler when its key is among them. */
    method ApplyRemovals()
      modifies this`eventHandlers, this`first
      ensures eventHandlers == RemoveKeys(old(eventHandlers), toBeRemoved)
      ensures first == FirstAfterRemovals(old(first), toBeRemoved)
    {
      ghost var handlers0, first0 := eventHandlers, first;
      var zombies := toBeRemoved;
      for i := 0 to |zombies|
        invariant eventHandlers == RemoveKeys(handlers0, zombies[..i])
        invariant first == FirstAfterRemovals(first0, zombies[..i])
      {
        var zombie := zombies[i];
        assert zombies[..i + 1] == zombies[..i] + [zombie];
        eventHandlers := Remove(eventHandlers, zombie);
        if first.Some? && zombie == first.value.key {
          first := None;
        }
      }
      assert zombies[..|zombies|] == zombies;
    }

    /** Put every pending addition, in its order. */
    method ApplyAdditions()
      modifies this`eventHandlers
      ensures eventHandlers == PutEntries(old(eventHandlers), toBeAdded)
    {
      ghost var handlers0 := eventHandlers;
      var additions := toBeAdded;
      for i := 0 to |additions|
        invariant eventHandlers == PutEntries(handlers0, additions[..i])
      {
        assert additions[..i + 1] == additions[..i] + [additions[i]];
        eventHandlers := Put(eventHandlers, additions[i].key, additions[i].handler);
      }
      assert additions[..|additions|] == additions;
    }

    /**
     * The synchronized block of `sendEvent`: count the dispatch in, serve the handlers,
     * count it out, and finish it if it is the outermost one.
     */
    method RunDispatch(eventType: bv64, reacts: Handler -> seq<RegistryOp>) returns (delivered: seq<int>)
      modifies this`eventHandlers, this`toBeRemoved, this`toBeAdded, this`first, this`toBeAddedFirst,
        this`dispatchInProgressCounter
      ensures Served(delivered, Snapshot()) == Dispatch(old(Snapshot()), eventType, reacts)
    {
      dispatchInProgressCounter := dispatchInProgressCounter + 1;
      delivered := Deliver(eventType, reacts);
      dispatchInProgressCounter := dispatchInProgressCounter - 1;
      if dispatchInProgressCounter == 0 {
        FinishDispatch();
      }
    }

    /**
     * `sendEvent`, without the time bookkeeping: resolve the view type, remember the id
     * of an event to create, serve the handlers, finish the dispatch if it is the
     * outermost one, and start the create or view screen when nobody took the event.
     */
    method SendEvent(eventType: bv64, viewTypeIn: int, id: int, reacts: Handler -> seq<RegistryOp>)
      returns (viewTypeOut: int, delivered: seq<int>, launch: Launch)
      modifies this
      ensures viewTypeIn == CURRENT ==> viewTypeOut == old(viewType) && viewType == old(viewType)
      ensures viewTypeIn != CURRENT ==> viewTypeOut == viewTypeIn && viewType == viewTypeIn
      ensures Served(delivered, Snapshot()) == Dispatch(old(Snapshot()), eventType, reacts)
      ensures launch == (if delivered != [] then NoLaunch
                         else if eventType == CREATE_EVENT then LaunchCreateEvent
                         else if eventType == VIEW_EVENT then LaunchViewEvent
                         else NoLaunch)
      ensures eventId == (if launch == LaunchCreateEvent then -1
                          else if eventType & CREATE_EVENT != 0 then (if id > 0 then id else -1)
                          else old(eventId))
    {
      if viewTypeIn == CURRENT {
        viewTypeOut := viewType;
      } else {
        viewTypeOut := viewTypeIn;
        viewType := viewTypeIn;
      }
      if eventType & CREATE_EVENT != 0 {
        eventId := if id > 0 then id else -1;
      }
      delivered := RunDispatch(eventType, reacts);
      launch := NoLaunch;
      if delivered == [] {
        if eventType == CREATE_EVENT {
          launch := LaunchCreateEvent;
          eventId := -1;
        } else if eventType == VIEW_EVENT {
          launch := LaunchViewEvent;
        }
      }
    }
  }
}
