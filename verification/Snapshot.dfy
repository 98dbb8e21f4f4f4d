/** One reading of the API server: the clusters and cluster sets a scheduling call sees. */
module Snapshot {
  import opened RoleScheduler

  datatype Cluster = Cluster(labels: map<string, string>, online: bool)

  datatype ClusterSet = ClusterSet(targets: seq<ClusterSetTarget>, selector: map<string, string>)

  /** `order` is the order in which a List call returns the clusters. */
  datatype World = World(clusters: map<string, Cluster>, order: seq<string>, sets: map<string, ClusterSet>)

  /** A List call returns every cluster once. */
  ghost predicate WellListed(w: World) {
    && (forall i :: 0 <= i < |w.order| ==> w.order[i] in w.clusters)
    && (forall name :: name in w.clusters ==> name in w.order)
    && (forall i, j :: 0 <= i < j < |w.order| ==> w.order[i] != w.order[j])
  }

  /** checkCluster finds nothing wrong: the cluster exists and is online. */
  predicate Online(w: World, name: string) {
    name in w.clusters && w.clusters[name].online
  }

  /** Every label of the selector is on the object. */
  predicate Selects(selector: map<string, string>, labels: map<string, string>) {
    forall k :: k in selector ==> k in labels && labels[k] == selector[k]
  }

  /** A selector picks what adding its labels would not change. */
  lemma SelectsIsPart(selector: map<string, string>, labels: map<string, string>)
    ensures Selects(selector, labels) <==> labels + selector == labels
  {
    if labels + selector == labels {
      forall k | k in selector ensures k in labels && labels[k] == selector[k] {
        assert k in labels + selector && (labels + selector)[k] == selector[k];
      }
    }
  }

  function Names(targets: seq<ClusterSetTarget>): (r: seq<string>)
    ensures |r| == |targets|
    ensures forall i :: 0 <= i < |r| ==> r[i] == targets[i].name
  {
    seq(|targets|, i requires 0 <= i < |targets| => targets[i].name)
  }

  /** The listed clusters a selector picks, in list order. */
  function Selected(w: World, order: seq<string>, selector: map<string, string>): (r: seq<string>)
    requires forall i :: 0 <= i < |order| ==> order[i] in w.clusters
    ensures forall name :: name in r <==> name in order && Selects(selector, w.clusters[name].labels)
  {
    if order == [] then []
    else (if Selects(selector, w.clusters[order[0]].labels) then [order[0]] else []) + Selected(w, order[1..], selector)
  }

  /** These are the positions of the clusters that carry all labels of the selector, in order. */
  ghost predicate ArePicked(w: World, order: seq<string>, selector: map<string, string>, positions: seq<nat>)
    requires forall i :: 0 <= i < |order| ==> order[i] in w.clusters
  {
    && (forall n :: 0 <= n < |positions| ==> positions[n] < |order|)
    && (forall i :: 0 <= i < |order| ==>
          (i in positions <==> w.clusters[order[i]].labels + selector == w.clusters[order[i]].labels))
    && (forall m, n :: 0 <= m < n < |positions| ==> positions[m] < positions[n])
  }

  predicate NamesAt(order: seq<string>, positions: seq<nat>, names: seq<string>) {
    && |names| == |positions|
    && forall n :: 0 <= n < |positions| ==> positions[n] < |order| && names[n] == order[positions[n]]
  }

  function OneFurther(positions: seq<nat>): (r: seq<nat>)
    ensures |r| == |positions| && forall n :: 0 <= n < |r| ==> r[n] == positions[n] + 1
    ensures forall i: nat :: i + 1 in r <==> i in positions
  {
    var r := seq(|positions|, n requires 0 <= n < |positions| => positions[n] + 1);
    assert forall n :: 0 <= n < |positions| ==> r[n] == positions[n] + 1;
    r
  }

  lemma PickedFirst(w: World, order: seq<string>, selector: map<string, string>, rest: seq<nat>)
    requires order != [] && forall i :: 0 <= i < |order| ==> order[i] in w.clusters
    requires ArePicked(w, order[1..], selector, rest)
    ensures var later := OneFurther(rest);
      ArePicked(w, order, selector,
        if Selects(selector, w.clusters[order[0]].labels) then [0] + later else later)
  {
    var later := OneFurther(rest);
    SelectsIsPart(selector, w.clusters[order[0]].labels);
    forall i | 0 < i < |order|
      ensures i in later <==> w.clusters[order[i]].labels + selector == w.clusters[order[i]].labels
    {
      assert order[1..][i - 1] == order[i] && (i - 1 + 1 in later <==> i - 1 in rest);
    }
  }

  /** The clusters a selector picks, in the order of the list. */
  lemma {:induction false} SelectedInOrder(w: World, order: seq<string>, selector: map<string, string>)
    returns (positions: seq<nat>)
    requires forall i :: 0 <= i < |order| ==> order[i] in w.clusters
    ensures ArePicked(w, order, selector, positions) && NamesAt(order, positions, Selected(w, order, selector))
    decreases |order|
  {
    hide *;
    if order == [] {
      positions := [];
      NonePicked(w, selector);
    } else {
      var rest := SelectedInOrder(w, order[1..], selector);
      PickedFirst(w, order, selector, rest);
      NamesFirst(order, rest, Selected(w, order[1..], selector));
      SelectedFirst(w, order, selector);
      positions := OneFurther(rest);
      if Selects(selector, w.clusters[order[0]].labels) {
        positions := [0] + positions;
      }
    }
  }

  lemma NonePicked(w: World, selector: map<string, string>)
    ensures ArePicked(w, [], selector, []) && NamesAt([], [], Selected(w, [], selector))
  {
  }

  lemma NamesFirst(order: seq<string>, rest: seq<nat>, names: seq<string>)
    requires order != [] && NamesAt(order[1..], rest, names)
    ensures NamesAt(order, OneFurther(rest), names) && NamesAt(order, [0] + OneFurther(rest), [order[0]] + names)
  {
  }

  lemma SelectedFirst(w: World, order: seq<string>, selector: map<string, string>)
    requires order != [] && forall i :: 0 <= i < |order| ==> order[i] in w.clusters
    ensures Selected(w, order, selector) == if Selects(selector, w.clusters[order[0]].labels) then
        [order[0]] + Selected(w, order[1..], selector)
      else
        Selected(w, order[1..], selector)
  {
  }

  /** The clusters of a set: the named ones, or those its selector picks. */
  function ClusterList(w: World, clusterSet: ClusterSet): seq<string>
    requires forall i :: 0 <= i < |w.order| ==> w.order[i] in w.clusters
  {
    if |clusterSet.targets| > 0 then Names(clusterSet.targets)
    else if |clusterSet.selector| > 0 then Selected(w, w.order, clusterSet.selector)
    else []
  }

  /** getClusterListByClusterSet. */
  method GetClusterListByClusterSet(w: World, clusterSet: ClusterSet) returns (clusterList: seq<string>)
    requires forall i :: 0 <= i < |w.order| ==> w.order[i] in w.clusters
    ensures clusterList == ClusterList(w, clusterSet)
  {
    clusterList := [];
    if |clusterSet.targets| > 0 {
      for i := 0 to |clusterSet.targets|
        invariant clusterList == Names(clusterSet.targets)[..i]
      {
        clusterList := clusterList + [clusterSet.targets[i].name];
      }
    } else if |clusterSet.selector| > 0 {
      clusterList := ListSelected(w, clusterSet.selector);
    }
  }

  /** The List call with a label selector. */
  method ListSelected(w: World, selector: map<string, string>) returns (clusterList: seq<string>)
    requires forall i :: 0 <= i < |w.order| ==> w.order[i] in w.clusters
    ensures clusterList == Selected(w, w.order, selector)
  {
    clusterList := [];
    for i := 0 to |w.order|
      invariant clusterList + Selected(w, w.order[i..], selector) == Selected(w, w.order, selector)
    {
      SelectedStep(w, w.order, i, selector, clusterList);
      if Selects(selector, w.clusters[w.order[i]].labels) {
        clusterList := clusterList + [w.order[i]];
      }
    }
    assert clusterList + [] == clusterList;
  }

  lemma SelectedStep(w: World, order: seq<string>, i: nat, selector: map<string, string>, sofar: seq<string>)
    requires forall k :: 0 <= k < |order| ==> order[k] in w.clusters
    requires i < |order|
    ensures sofar + Selected(w, order[i..], selector)
      == (if Selects(selector, w.clusters[order[i]].labels) then sofar + [order[i]] else sofar)
        + Selected(w, order[i + 1..], selector)
  {
    assert order[i..][0] == order[i] && order[i..][1..] == order[i + 1..];
    var rest := Selected(w, order[i + 1..], selector);
    assert sofar + ([order[i]] + rest) == sofar + [order[i]] + rest;
    assert [] + rest == rest;
  }
}
