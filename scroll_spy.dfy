/**
 * The scroll-spy hook of src/hooks/useScrollSpy.ts as an object with an explicit
 * lifecycle. The hook's `useState` becomes the field `activeId`, set once by the
 * constructor; the effect body becomes `Subscribe`, its cleanup `Teardown`, and a
 * re-run of the effect after a change of `sectionIds` or `options` is `Rerun`.
 * The host's IntersectionObserver is the class `Observer`; its geometry is not
 * modelled, so each delivered batch of entries is an input of `OnBatch`.
 */
module ScrollSpy {
  import opened Wrappers
  import opened SpySelection

  /** A value of an `IntersectionObserverInit` key. */
  datatype InitValue =
    | Margin(css: string)
    | Thresholds(levels: seq<real>)
    | RootId(id: string)
    | NullRoot
    | Undefined

  /** An options object: the keys it has, with their values. */
  type ObserverInit = map<string, InitValue>

  const DEFAULT_ROOT_MARGIN: string := "-20% 0px -60% 0px"
  const DEFAULT_THRESHOLD: seq<real> := [0.2, 0.5, 0.8]

  function Defaults(): ObserverInit {
    map["rootMargin" := Margin(DEFAULT_ROOT_MARGIN), "threshold" := Thresholds(DEFAULT_THRESHOLD)]
  }

  /**
   * `{ rootMargin: ..., threshold: ..., ...options }`: every key the caller gives
   * overrides the default, key by key (an explicit `undefined` too); spreading an
   * absent `options` adds nothing.
   */
  function MergeOptions(options: Option<ObserverInit>): (r: ObserverInit)
    ensures r.Keys == Defaults().Keys + (if options.Some? then options.value.Keys else {})
    ensures forall k :: options.Some? && k in options.value ==> r[k] == options.value[k]
    ensures forall k :: k in Defaults() && (options.None? || k !in options.value) ==> r[k] == Defaults()[k]
  {
    match options
    case None => Defaults()
    case Some(o) => Defaults() + o
  }

  /** Without caller options the observer gets the source's two defaults. */
  lemma NoOptionsGivesDefaults()
    ensures MergeOptions(None)["rootMargin"] == Margin("-20% 0px -60% 0px")
    ensures MergeOptions(None)["threshold"] == Thresholds([0.2, 0.5, 0.8])
  {
  }

  /** The part of the page the hook can see: whether `window` exists, and the ids of its elements. */
  datatype Host = Host(hasWindow: bool, elementIds: set<string>)

  /** `document.getElementById(id)` finds an element; an empty string is never an element's id. */
  predicate Resolves(host: Host, id: string) {
    id != "" && id in host.elementIds
  }

  /**
   * `sectionIds.map(getElementById).filter(Boolean)`, each element named by its id:
   * the ids that resolve, in list order; the others are skipped without error.
   */
  function Resolve(ids: seq<string>, host: Host): (r: seq<string>)
    ensures forall id :: id in r <==> id in ids && Resolves(host, id)
    ensures |r| <= |ids|
  {
    if ids == [] then []
    else
      var rest := Resolve(ids[1..], host);
      if Resolves(host, ids[0]) then [ids[0]] + rest else rest
  }

  /** The host's IntersectionObserver: its options, the targets it observes, whether it is connected. */
  class Observer {
    const options: ObserverInit
    var targets: seq<string>
    var connected: bool

    constructor (options: ObserverInit)
      ensures this.options == options && targets == [] && connected
    {
      this.options := options;
      targets := [];
      connected := true;
    }

    /** `observe(el)`: a target that is already observed is not added a second time. */
    method Observe(id: string)
      modifies this
      ensures targets == if id in old(targets) then old(targets) else old(targets) + [id]
      ensures connected == old(connected)
    {
      if id !in targets {
        targets := targets + [id];
      }
    }

    /** `elements.forEach((el) => observer.observe(el))`: every element is observed, each once. */
    method ObserveAll(elements: seq<string>)
      requires targets == []
      modifies this
      ensures connected == old(connected)
      ensures forall id :: id in targets <==> id in elements
      ensures forall a, b :: 0 <= a < b < |targets| ==> targets[a] != targets[b]
    {
      for i := 0 to |elements|
        invariant connected == old(connected)
        invariant forall id :: id in targets <==> id in elements[..i]
        invariant forall a, b :: 0 <= a < b < |targets| ==> targets[a] != targets[b]
      {
        Observe(elements[i]);
        assert elements[..i + 1] == elements[..i] + [elements[i]];
      }
      assert elements[..|elements|] == elements;
    }

    /** `disconnect()`: stops observing every target; no callback is delivered afterwards. */
    method Disconnect()
      modifies this
      ensures targets == [] && !connected
    {
      targets := [];
      connected := false;
    }
  }

  class Spy {
    /** The hook's state: the id it returns. */
    var activeId: Option<string>
    /** The `sectionIds` of the latest render. */
    var sectionIds: seq<string>
    /** The observer created by the current effect run, if it created one. */
    var observer: Observer?
    /** Observers created and disconnected so far. */
    ghost var created: nat
    ghost var disconnected: nat

    /**
     * At most one observer is live, and it is the one held here; it is connected
     * and observes only resolved ids of the current list, each once.
     */
    ghost predicate Valid()
      reads this, observer
    {
      && created == disconnected + (if observer == null then 0 else 1)
      && (observer != null ==>
            && observer.connected
            && (forall t :: t in observer.targets ==> t in sectionIds && t != "")
            && (forall i, j :: 0 <= i < j < |observer.targets| ==> observer.targets[i] != observer.targets[j]))
    }

    /** First render: `useState(sectionIds[0] ?? null)`; no effect has run yet. */
    constructor (ids: seq<string>)
      ensures Valid()
      ensures activeId == (if |ids| > 0 then Some(ids[0]) else None)
      ensures sectionIds == ids && observer == null && created == 0 && disconnected == 0
    {
      activeId := if |ids| > 0 then Some(ids[0]) else None;
      sectionIds := ids;
      observer := null;
      created := 0;
      disconnected := 0;
    }

    /**
     * The effect body. Without `window` or with an empty id list it does nothing;
     * otherwise it creates one observer with the merged options and observes every
     * id that resolves. The active id is never touched here.
     */
    method Subscribe(ids: seq<string>, options: Option<ObserverInit>, host: Host)
      requires Valid() && observer == null
      modifies this
      ensures Valid()
      ensures activeId == old(activeId) && sectionIds == ids && disconnected == old(disconnected)
      ensures observer == null <==> !host.hasWindow || |ids| == 0
      ensures created == old(created) + (if observer == null then 0 else 1)
      ensures observer != null ==>
        && fresh(observer)
        && observer.options == MergeOptions(options)
        && (forall id :: id in observer.targets <==> id in Resolve(ids, host))
    {
      sectionIds := ids;
      if !host.hasWindow || |ids| == 0 {
        return;
      }
      var obs := new Observer(MergeOptions(options));
      obs.ObserveAll(Resolve(ids, host));
      observer := obs;
      created := created + 1;
    }

    /** The effect's cleanup: disconnects the live observer, if there is one. */
    method Teardown()
      requires Valid()
      modifies this, observer
      ensures Valid() && observer == null
      ensures activeId == old(activeId) && sectionIds == old(sectionIds) && created == old(created)
      ensures disconnected == old(disconnected) + (if old(observer) == null then 0 else 1)
      ensures old(observer) != null ==> !old(observer).connected && old(observer).targets == []
    {
      if observer != null {
        observer.Disconnect();
        observer := null;
        disconnected := disconnected + 1;
      }
    }

    /**
     * A render whose `sectionIds` or `options` changed: the old effect is cleaned
     * up before the new one runs. `useState` keeps its value, so the active id
     * stays what it was, even when it is not among the new ids.
     */
    method Rerun(ids: seq<string>, options: Option<ObserverInit>, host: Host)
      requires Valid()
      modifies this, observer
      ensures Valid()
      ensures activeId == old(activeId) && sectionIds == ids
      ensures old(observer) != null ==> !old(observer).connected
      ensures observer == null <==> !host.hasWindow || |ids| == 0
      ensures observer != null ==>
        && fresh(observer)
        && observer.options == MergeOptions(options)
        && (forall id :: id in observer.targets <==> id in Resolve(ids, host))
      ensures created == old(created) + (if observer == null then 0 else 1)
      ensures disconnected == old(disconnected) + (if old(observer) == null then 0 else 1)
    {
      Teardown();
      Subscribe(ids, options, host);
    }

    /**
     * The observer's callback on one batch. The host reports only targets of the
     * live observer; with no live observer (before the effect, after teardown,
     * or when none was created) nothing is delivered and nothing changes.
     */
    method OnBatch(entries: seq<Entry>)
      requires Valid()
      requires observer != null ==> forall i :: 0 <= i < |entries| ==> entries[i].targetId in observer.targets
      modifies this
      ensures Valid()
      ensures activeId == if observer == null then old(activeId) else NextActive(old(activeId), entries)
      ensures activeId != old(activeId) ==> activeId.Some? && activeId.value in sectionIds
      ensures sectionIds == old(sectionIds) && observer == old(observer)
      ensures created == old(created) && disconnected == old(disconnected)
    {
      if observer != null {
        NextActiveFromBatch(activeId, entries);
        activeId := NextActive(activeId, entries);
      }
    }
  }

  /**
   * Scenarios: the first id is active before any batch; the larger ratio wins;
   * a batch with nothing intersecting keeps the active id; re-running with a
   * longer list leaves one live observer; a late batch after teardown is ignored.
   */
  method Scenarios()
  {
    var host := Host(true, {"a", "b", "c"});
    var spy := new Spy(["a", "b"]);
    assert spy.activeId == Some("a");
    spy.Subscribe(["a", "b"], None, host);
    assert "a" in Resolve(["a", "b"], host) && "b" in Resolve(["a", "b"], host);
    var b80 := Entry("b", true, Some(0.8));
    var a20 := Entry("a", true, Some(0.2));
    spy.OnBatch([a20, b80]);
    NextActiveAdoptsFirstMax(Some("a"), [a20, b80], 1);
    assert spy.activeId == Some("b");
    spy.OnBatch([Entry("a", false, Some(0.9))]);
    assert spy.activeId == Some("b");
    spy.Rerun(["a", "b", "c"], None, host);
    assert spy.created == 2 && spy.disconnected == 1 && spy.observer != null;
    spy.Teardown();
    spy.OnBatch([a20]);
    assert spy.activeId == Some("b");
  }

  /** An empty first list stays without an active id even after a non-empty re-render. */
  method EmptyFirstList()
  {
    var spy := new Spy([]);
    spy.Subscribe([], None, Host(true, {"a"}));
    assert spy.observer == null && spy.activeId == None;
    spy.Rerun(["a"], None, Host(true, {"a"}));
    assert spy.sectionIds == ["a"] && spy.activeId == None;
  }
}
