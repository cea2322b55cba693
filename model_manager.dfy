/**
 * ModelManager (model/ModelManager.java): the registry of one
 * NetworkViewSet per network view, and the gate through which model events
 * reach the event bus.
 *
 * The event bus is the log `posted` of the events it received; the host's
 * current network view is the field `currentView`. A NetworkViewSet is
 * reduced to its view and the clusters of its active annotation set.
 */
module Model {
  import opened Wrappers
  import opened Clusters

  /** Identity of a network view (a CyNetworkView). */
  type ViewRef = nat

  class NetworkViewSet {
    const view: ViewRef
    /** The clusters of the active annotation set; None when no set is active. */
    var activeClusters: Option<set<Cluster>>

    constructor (view: ViewRef)
      ensures this.view == view && activeClusters == None
    {
      this.view := view;
      activeClusters := None;
    }
  }

  datatype ModelEvent =
    | NetworkViewSetSelected(selected: NetworkViewSet?)
    | NetworkViewSetDeleted(deleted: NetworkViewSet)
    | ClusterChanged(cluster: Cluster)

  /** The visual properties a change record can name; only the four geometry ones matter here. */
  datatype VisualProperty = NodeXLocation | NodeYLocation | NodeWidth | NodeHeight | OtherProperty(name: string)

  /** What a changed view shows: a node, or something else (an edge, the network). */
  datatype ViewModel = NodeModel(node: NodeRef) | OtherModel

  datatype ViewChangeRecord = ViewChangeRecord(model: ViewModel, property: VisualProperty)

  /** The outcome of an event handler: done, or a NullPointerException escaped. */
  datatype Outcome = Done | NullPointer

  /** A record that moves or resizes a node. */
  predicate IsNodeGeometry(r: ViewChangeRecord)
  {
    r.model.NodeModel? &&
    r.property in {NodeXLocation, NodeYLocation, NodeWidth, NodeHeight}
  }

  /** The clusters holding a node that some record moved or resized. */
  function AffectedClusters(records: seq<ViewChangeRecord>, clusters: set<Cluster>): (r: set<Cluster>)
    ensures r <= clusters
  {
    set c, i | c in clusters && 0 <= i < |records| && IsNodeGeometry(records[i]) && c.Contains(records[i].model.node) :: c
  }

  /** The records of one event can be handled in parts: the affected clusters of the whole are the union of the parts'. */
  lemma {:induction false} AffectedClustersAppend(a: seq<ViewChangeRecord>, b: seq<ViewChangeRecord>, clusters: set<Cluster>)
    ensures AffectedClusters(a + b, clusters) == AffectedClusters(a, clusters) + AffectedClusters(b, clusters)
  {
    var ab := a + b;
    forall c | c in AffectedClusters(ab, clusters)
      ensures c in AffectedClusters(a, clusters) + AffectedClusters(b, clusters)
    {
      var i :| 0 <= i < |ab| && IsNodeGeometry(ab[i]) && c.Contains(ab[i].model.node);
      if i < |a| {
        assert ab[i] == a[i];
      } else {
        assert ab[i] == b[i - |a|];
      }
    }
    forall c | c in AffectedClusters(a, clusters) + AffectedClusters(b, clusters)
      ensures c in AffectedClusters(ab, clusters)
    {
      if c in AffectedClusters(a, clusters) {
        var i :| 0 <= i < |a| && IsNodeGeometry(a[i]) && c.Contains(a[i].model.node);
        assert ab[i] == a[i];
      } else {
        var i :| 0 <= i < |b| && IsNodeGeometry(b[i]) && c.Contains(b[i].model.node);
        assert ab[|a| + i] == b[i];
      }
    }
  }

  /** Records that touch no node's position or size (edges, colours, labels) affect no cluster. */
  lemma NonGeometryAffectsNothing(records: seq<ViewChangeRecord>, clusters: set<Cluster>)
    requires forall i :: 0 <= i < |records| ==> !IsNodeGeometry(records[i])
    ensures AffectedClusters(records, clusters) == {}
  {
  }

  /** The first loop of the view-change handler: accumulates the affected clusters record by record. */
  method CollectAffectedClusters(records: seq<ViewChangeRecord>, clusters: set<Cluster>)
    returns (affected: set<Cluster>)
    ensures forall c :: c in affected <==>
      c in clusters && exists i :: 0 <= i < |records| && IsNodeGeometry(records[i]) && c.Contains(records[i].model.node)
  {
    affected := {};
    var i := 0;
    while i < |records|
      invariant 0 <= i <= |records|
      invariant affected == AffectedClusters(records[..i], clusters)
    {
      var vcr := records[i];
      if IsNodeGeometry(vcr) {
        var node := vcr.model.node;
        var remaining := clusters;
        var found: set<Cluster> := {};
        while remaining != {}
          invariant remaining <= clusters
          invariant found == set c | c in clusters - remaining && c.Contains(node)
        {
          var cluster :| cluster in remaining;
          if cluster.Contains(node) {
            found := found + {cluster};
          }
          remaining := remaining - {cluster};
        }
        affected := affected + found;
      }
      assert records[..i + 1] == records[..i] + [vcr];
      i := i + 1;
    }
    assert records[..i] == records;
  }

  class ModelManager {
    /** The host's current network view (CyApplicationManager), None when there is none. */
    var currentView: Option<ViewRef>
    var silenceEvents: bool
    var networkViews: map<ViewRef, NetworkViewSet>
    /** Every event the bus received, oldest first. */
    var posted: seq<ModelEvent>

    /** Each registered set belongs to the view it is registered under. */
    ghost predicate Valid()
      reads this`networkViews
    {
      forall v :: v in networkViews ==> networkViews[v].view == v
    }

    constructor (currentView: Option<ViewRef>)
      ensures Valid()
      ensures this.currentView == currentView && !silenceEvents
      ensures networkViews == map[] && posted == []
    {
      this.currentView := currentView;
      silenceEvents := false;
      networkViews := map[];
      posted := [];
    }

    /** Get-or-create: the registered set of `v`, or a fresh one that is registered from now on. */
    method GetNetworkViewSet(v: ViewRef) returns (s: NetworkViewSet)
      requires Valid()
      modifies this`networkViews
      ensures Valid()
      ensures v in networkViews && networkViews[v] == s && s.view == v
      ensures v in old(networkViews) ==> s == old(networkViews)[v] && networkViews == old(networkViews)
      ensures v !in old(networkViews) ==> fresh(s) && s.activeClusters == None && networkViews == old(networkViews)[v := s]
    {
      if v in networkViews {
        s := networkViews[v];
      } else {
        s := new NetworkViewSet(v);
        networkViews := networkViews[v := s];
      }
    }

    /** The set of the current view, if one is registered; a lookup only, never an insertion. */
    function GetActiveNetworkViewSet(): (s: NetworkViewSet?)
      requires Valid()
      reads this
      ensures s != null <==> currentView.Some? && currentView.value in networkViews
      ensures s != null ==> s.view in networkViews && s == networkViews[s.view] && currentView == Some(s.view)
    {
      if currentView.Some? && currentView.value in networkViews then networkViews[currentView.value] else null
    }

    /** Forwards an event to the bus unless events are silenced. */
    method PostEvent(e: ModelEvent)
      modifies this`posted
      ensures silenceEvents ==> posted == old(posted)
      ensures !silenceEvents ==> posted == old(posted) + [e]
    {
      if !silenceEvents {
        posted := posted + [e];
      }
    }

    method SetSilenceEvents(silence: bool)
      modifies this`silenceEvents
      ensures silenceEvents == silence
    {
      silenceEvents := silence;
    }

    /** SetSelectedNetworkViewsEvent: announces the set of the newly current view (null if none). */
    method HandleSetSelectedNetworkViews()
      requires Valid()
      modifies this`posted
      ensures posted == if silenceEvents then old(posted) else old(posted) + [NetworkViewSetSelected(GetActiveNetworkViewSet())]
    {
      var nvs := GetActiveNetworkViewSet();
      PostEvent(NetworkViewSetSelected(nvs));
    }

    /** NetworkViewAboutToBeDestroyedEvent: forgets the view's set and announces it, if there was one. */
    method HandleNetworkViewAboutToBeDestroyed(v: ViewRef)
      requires Valid()
      modifies this`networkViews, this`posted
      ensures Valid()
      ensures networkViews == old(networkViews) - {v}
      ensures v in old(networkViews) && !silenceEvents ==> posted == old(posted) + [NetworkViewSetDeleted(old(networkViews)[v])]
      ensures v !in old(networkViews) || silenceEvents ==> posted == old(posted)
    {
      var removed := if v in networkViews then networkViews[v] else null;
      networkViews := networkViews - {v};
      if removed != null {
        PostEvent(NetworkViewSetDeleted(removed));
      }
    }

    /**
     * Whether `s` is the set of the current view. With no current view only
     * null is; with one, a null `s` throws (None here).
     */
    function IsNetworkViewSetSelected(s: NetworkViewSet?): (r: Option<bool>)
      reads this
      ensures currentView.None? ==> r == Some(s == null)
      ensures currentView.Some? ==> (r.None? <==> s == null)
      ensures currentView.Some? && s != null ==> r == Some(s.view == currentView.value)
    {
      if currentView.None? then Some(s == null)
      else if s == null then None
      else Some(currentView.value == s.view)
    }

    /** A registered set is reported selected exactly when it is the set the current view resolves to. */
    lemma SelectedIffActive(s: NetworkViewSet)
      requires Valid()
      requires s.view in networkViews && networkViews[s.view] == s
      requires currentView.Some?
      ensures IsNetworkViewSetSelected(s) == Some(s == GetActiveNetworkViewSet())
    {
      if s.view == currentView.value {
        assert GetActiveNetworkViewSet() == s;
      } else if GetActiveNetworkViewSet() != null {
        assert GetActiveNetworkViewSet().view == currentView.value;
      }
    }

    /**
     * ViewChangedEvent from view `source`: when it is the current view's,
     * posts one ClusterChanged per active cluster holding a node whose
     * position or size changed, each cluster once. A missing current set, or
     * a missing active annotation set once a geometry record arrives, throws.
     */
    method HandleViewChanged(source: ViewRef, records: seq<ViewChangeRecord>) returns (outcome: Outcome)
      requires Valid()
      modifies this`posted
      ensures GetActiveNetworkViewSet() == null ==> outcome == NullPointer && posted == old(posted)
      ensures var nvs := GetActiveNetworkViewSet();
        nvs != null && source != nvs.view ==> outcome == Done && posted == old(posted)
      ensures var nvs := GetActiveNetworkViewSet();
        nvs != null && source == nvs.view && nvs.activeClusters.None? ==>
          outcome == (if exists i :: 0 <= i < |records| && IsNodeGeometry(records[i]) then NullPointer else Done) &&
          posted == old(posted)
      ensures var nvs := GetActiveNetworkViewSet();
        nvs != null && source == nvs.view && nvs.activeClusters.Some? ==>
          outcome == Done &&
          (silenceEvents ==> posted == old(posted)) &&
          (!silenceEvents ==> AnnouncesEach(old(posted), posted, AffectedClusters(records, nvs.activeClusters.value)))
    {
      var nvs := GetActiveNetworkViewSet();
      if nvs == null {
        return NullPointer;
      }
      if source != nvs.view {
        return Done;
      }
      if nvs.activeClusters.None? {
        outcome := Done;
        var i := 0;
        while i < |records|
          invariant 0 <= i <= |records|
          invariant forall j :: 0 <= j < i ==> !IsNodeGeometry(records[j])
        {
          if IsNodeGeometry(records[i]) {
            return NullPointer;
          }
          i := i + 1;
        }
        return;
      }
      var affected := CollectAffectedClusters(records, nvs.activeClusters.value);
      assert affected == AffectedClusters(records, nvs.activeClusters.value);
      PostClusterChanges(affected);
      outcome := Done;
    }

    /** The second loop of the view-change handler: one ClusterChanged per affected cluster, in some order. */
    method PostClusterChanges(affected: set<Cluster>)
      modifies this`posted
      ensures silenceEvents ==> posted == old(posted)
      ensures !silenceEvents ==> AnnouncesEach(old(posted), posted, affected)
    {
      ghost var before, silenced := posted, silenceEvents;
      ghost var done: set<Cluster> := {};
      var remaining := affected;
      while remaining != {}
        invariant done + remaining == affected && done !! remaining
        invariant silenceEvents == silenced
        invariant silenced ==> posted == before
        invariant !silenced ==> AnnouncesEach(before, posted, done)
      {
        var cluster :| cluster in remaining;
        ghost var prev := posted;
        PostEvent(ClusterChanged(cluster));
        if !silenced {
          AnnounceOneMore(before, prev, done, cluster);
        }
        done := done + {cluster};
        remaining := remaining - {cluster};
      }
    }
  }

  /** Announcing one more, not yet announced, cluster keeps the log announcing each cluster exactly once. */
  lemma AnnounceOneMore(before: seq<ModelEvent>, after: seq<ModelEvent>, done: set<Cluster>, c: Cluster)
    requires AnnouncesEach(before, after, done) && c !in done
    ensures AnnouncesEach(before, after + [ClusterChanged(c)], done + {c})
  {
    var next := after + [ClusterChanged(c)];
    assert |done + {c}| == |done| + 1;
    assert next[..|before|] == before;
    assert next[|before|..] == after[|before|..] + [ClusterChanged(c)];
  }

  /** `after` extends `before` by exactly one ClusterChanged per cluster of `affected`. */
  ghost predicate AnnouncesEach(before: seq<ModelEvent>, after: seq<ModelEvent>, affected: set<Cluster>)
  {
    |after| == |before| + |affected| && after[..|before|] == before &&
    (forall k :: |before| <= k < |after| ==> after[k].ClusterChanged? && after[k].cluster in affected) &&
    (forall c :: c in affected ==> ClusterChanged(c) in after[|before|..])
  }
}
