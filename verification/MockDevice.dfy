/** A mock device at work: its helpers are built from a YIN file and then edited. */
module MockDevice {
  import opened Wrappers
  import opened EditHistory
  import opened YinTree
  import opened DataHelpers
  import opened YinFiles
  import opened WalkOrders

  /** A call of `set_modified` on the helper filed under a text, or of the setter when a time is given. */
  datatype Request = Request(text: string, updateTime: Option<int>, utcnow: int)

  /** The request names a configuration resource. */
  predicate Applies(extmethods: map<string, DataHelper>, r: Request) {
    r.text in extmethods && extmethods[r.text].isConfig
  }

  /** The edits that the requests stand for; a request that names no configuration resource stands for none. */
  ghost function EditsFor(extmethods: map<string, DataHelper>, requests: seq<Request>): seq<Edit> {
    if requests == [] then []
    else
      var init, r := EditsFor(extmethods, requests[..|requests| - 1]), requests[|requests| - 1];
      if Applies(extmethods, r) then init + [Edit(extmethods[r.text].path, r.updateTime.GetOr(r.utcnow))] else init
  }

  /** The configuration resources right after the walk, all with the timestamp and tag of their class. */
  ghost function Untouched(built: map<Path, DataHelper>, shared: Version, datastore: Version, issued: nat): Device {
    Device(map p | p in built && built[p].isConfig :: shared, datastore, issued)
  }

  lemma FiledIsBuilt(extmethods: map<string, DataHelper>, built: map<Path, DataHelper>, t: string)
    requires Filed(extmethods, built, "") && Forest(built) && t in extmethods
    ensures extmethods[t].path in built && built[extmethods[t].path] == extmethods[t]
    ensures PathText(extmethods[t].path) == t
  {
    assert FiledUnder(extmethods[t], built, "", t);
    var p :| p in built && t == "" + PathText(p) && extmethods[t] == built[p];
    assert "" + PathText(p) == PathText(p);
  }

  /** One more request adds one edit when it names a configuration resource, at the time it gives or else
      at that of the clock, and none otherwise. */
  lemma EditsForSnoc(extmethods: map<string, DataHelper>, requests: seq<Request>, r: Request)
    ensures EditsFor(extmethods, requests + [r])
         == EditsFor(extmethods, requests)
            + if r.text in extmethods && extmethods[r.text].isConfig
              then [Edit(extmethods[r.text].path, if r.updateTime.Some? then r.updateTime.value else r.utcnow)] else []
  {
    assert (requests + [r])[..|requests|] == requests;
  }

  /** The calls that the requests stand for. */
  method Select(extmethods: map<string, DataHelper>, requests: seq<Request>)
    returns (helpers: seq<DataHelper>, updates: seq<Option<int>>, clock: seq<int>)
    ensures |helpers| == |updates| == |clock|
    ensures forall i :: 0 <= i < |helpers| ==> helpers[i] in extmethods.Values && helpers[i].isConfig
    ensures EditsOf(helpers, updates, clock) == EditsFor(extmethods, requests)
  {
    helpers, updates, clock := [], [], [];
    for i := 0 to |requests|
      invariant |helpers| == |updates| == |clock|
      invariant forall j :: 0 <= j < |helpers| ==> helpers[j] in extmethods.Values && helpers[j].isConfig
      invariant EditsOf(helpers, updates, clock) == EditsFor(extmethods, requests[..i])
    {
      var r := requests[i];
      TakeOneMore(requests, i);
      EditsForSnoc(extmethods, requests[..i], r);
      if Applies(extmethods, r) {
        EditsOfSnoc(helpers, updates, clock, extmethods[r.text], r.updateTime, r.utcnow);
        helpers, updates, clock := helpers + [extmethods[r.text]], updates + [r.updateTime], clock + [r.utcnow];
      }
    }
    assert requests[..|requests|] == requests;
  }

  lemma EditsOfSnoc(helpers: seq<DataHelper>, updates: seq<Option<int>>, clock: seq<int>,
                    h: DataHelper, updateTime: Option<int>, utcnow: int)
    requires |helpers| == |updates| == |clock|
    ensures EditsOf(helpers + [h], updates + [updateTime], clock + [utcnow])
         == EditsOf(helpers, updates, clock) + [Edit(h.path, updateTime.GetOr(utcnow))]
  {}

  lemma SelectedAreBuilt(extmethods: map<string, DataHelper>, built: map<Path, DataHelper>, helpers: seq<DataHelper>)
    requires Filed(extmethods, built, "") && Forest(built)
    requires forall i :: 0 <= i < |helpers| ==> helpers[i] in extmethods.Values && helpers[i].isConfig
    ensures ConfigHelpersOf(helpers, built)
  {
    forall i | 0 <= i < |helpers| ensures helpers[i].path in built && built[helpers[i].path] == helpers[i] {
      assert helpers[i] in extmethods.Values;
      var t :| t in extmethods && extmethods[t] == helpers[i];
      FiledIsBuilt(extmethods, built, t);
    }
  }

  /** Any run of requests on the helpers is the run of the reference model. */
  method Serve(extmethods: map<string, DataHelper>, requests: seq<Request>, store: DataModels, uuids: UuidSource,
               ghost built: map<Path, DataHelper>)
    returns (raised: bool)
    requires Filed(extmethods, built, "") && Forest(built) && ConfigClosed(built)
    modifies built.Values, store, uuids
    ensures !raised
    ensures var before, edits := old(Snapshot(built, store, uuids)), EditsFor(extmethods, requests);
      Rooted(before) && Legal(before, edits) && Snapshot(built, store, uuids) == Run(before, edits)
    ensures StatusOf(built, Versions(built)) == StatusOf(built, old(Versions(built)))
  {
    var helpers, updates, clock := Select(extmethods, requests);
    SelectedAreBuilt(extmethods, built, helpers);
    raised := EditAll(helpers, updates, clock, store, uuids, built);
  }

  /** Freshly built helpers are a start for the reference model. */
  lemma AfterWalk(built: map<Path, DataHelper>, store: DataModels, uuids: UuidSource, shared: Version)
    requires Forest(built) && ConfigClosed(built) && shared.tag < uuids.issued
    requires forall p :: p in built ==> built[p].Current() == shared
    ensures Initial(Snapshot(built, store, uuids), shared.tag)
    ensures Snapshot(built, store, uuids)
         == Untouched(built, shared, Version(store.lastModified, store.eTag), uuids.issued)
    ensures forall p :: p in built && !built[p].isConfig ==> StatusOf(built, Versions(built))[p] == shared
  {
    UntouchedSnapshot(built, store, uuids, shared);
  }

  /** What the final state shows, helper by helper. */
  lemma ShownAfter(built: map<Path, DataHelper>, store: DataModels, uuids: UuidSource, status: map<Path, Version>,
                   start: Device, edits: seq<Edit>, shared: Version)
    requires Rooted(start) && Legal(start, edits) && Snapshot(built, store, uuids) == Run(start, edits)
    requires StatusOf(built, Versions(built)) == status
    requires forall p :: p in built && !built[p].isConfig ==> p in status && status[p] == shared
    ensures forall p :: p in built && built[p].isConfig ==> p in start.nodes
    ensures forall p :: p in built ==>
              built[p].Current() == if built[p].isConfig then VersionAfter(start, edits, p) else shared
  {
    forall p | p in built
      ensures built[p].isConfig ==> p in start.nodes
      ensures built[p].Current() == if built[p].isConfig then VersionAfter(start, edits, p) else shared
    {
      if built[p].isConfig {
        assert p in Snapshot(built, store, uuids).nodes;
        RunClosedForm(start, edits, p);
      } else {
        assert StatusOf(built, Versions(built))[p] == built[p].Current();
      }
    }
  }

  /** Builds the helpers, with the dictionaries listing their keys in any order, and serves any run of
      requests. The walk raises exactly when it reads a config
      statement without a value; after that nothing raises, every configuration helper shows the version
      of the last request for it or for something below it, and every status helper is as it was built. */
  method BuildAndEdit(file: YinFile, value: Value, order: Order, shared: Version, requests: seq<Request>,
                      store: DataModels, uuids: UuidSource)
    returns (raised: bool, extmethods: map<string, DataHelper>, ghost built: map<Path, DataHelper>)
    requires Orders(order, Scope(file.ns, value, file.root)) && shared.tag < uuids.issued
    modifies store, uuids
    ensures raised <==> Crashes(Scope(file.ns, value, file.root), true)
    ensures raised ==>
      && Version(store.lastModified, store.eTag) == old(Version(store.lastModified, store.eTag))
      && uuids.issued == old(uuids.issued)
    ensures !raised ==>
      var s := Scope(file.ns, value, file.root);
      && Describes(built, s, null, s.Keys()) && FiledBy(extmethods, built, "", Outcome(s, order.turns))
      && var start := Untouched(built, shared, old(Version(store.lastModified, store.eTag)), old(uuids.issued));
      && var edits := EditsFor(extmethods, requests);
      && Initial(start, shared.tag) && Legal(start, edits)
      && Version(store.lastModified, store.eTag) == Run(start, edits).datastore
      && forall p :: p in built ==>
           built[p].Current() == if built[p].isConfig then VersionAfter(start, edits, p) else shared
  {
    raised, extmethods, built := file.GetExtmethods(value, order, None, "", null, shared);
    if raised {
      return;
    }
    ghost var s := Scope(file.ns, value, file.root);
    WalkFromRootIsClosed(built, s);
    FiledByIsFiled(extmethods, built, s, null, "", order);
    AfterWalk(built, store, uuids, shared);
    ghost var start, status := Snapshot(built, store, uuids), StatusOf(built, Versions(built));
    raised := Serve(extmethods, requests, store, uuids, built);
    ShownAfter(built, store, uuids, status, start, EditsFor(extmethods, requests), shared);
  }
}
