/** Deleting a MultiClusterResource: every binding found through the label index loses it. */
module BindingCleanup {
  import opened BindingModel
  import opened ResourceRemoval
  import L = Labels

  type Bindings = map<(string, string), Binding>

  /** What a list call for the resource's label returns, in some order. */
  predicate ListsSelected(bindings: Bindings, name: string, listed: seq<(string, string)>) {
    && (forall i :: 0 <= i < |listed| ==> listed[i] in bindings && L.SelectedBy(bindings[listed[i]], name))
    && (forall k :: k in bindings && L.SelectedBy(bindings[k], name) ==> k in listed)
    && (forall i, j :: 0 <= i < j < |listed| ==> listed[i] != listed[j])
  }

  /** The binding without the resource, up to the order of its list. */
  predicate Cleaned(was: Binding, now: Binding, name: string) {
    now == was.(resources := now.resources) && multiset(now.resources) == multiset(NotNamed(was.resources, name))
  }

  predicate CleanedAt(was: Bindings, now: Bindings, name: string, k: (string, string))
    requires k in was
  {
    if NotNamed(was[k].resources, name) == [] then k !in now
    else k in now && Cleaned(was[k], now[k], name)
  }

  class BindingStore {
    var bindings: Bindings

    constructor (bindings: Bindings)
      ensures this.bindings == bindings
    {
      this.bindings := bindings;
    }

    /** One binding is updated, or deleted when nothing is left of it. */
    method Clean(name: string, k: (string, string))
      requires k in bindings
      modifies this
      ensures CleanedAt(old(bindings), bindings, name, k)
      ensures bindings - {k} == old(bindings) - {k}
    {
      var b := bindings[k];
      var left := RemoveFromBinding(b.resources, name);
      assert |left| == |multiset(left)| == |multiset(NotNamed(b.resources, name))| == |NotNamed(b.resources, name)|;
      if |left| == 0 {
        bindings := bindings - {k};
      } else {
        bindings := bindings[k := b.(resources := left)];
      }
    }

    /** updateBinding, over the bindings listed for the resource's label. */
    method UpdateBinding(name: string, listed: seq<(string, string)>)
      requires ListsSelected(bindings, name, listed)
      modifies this
      ensures CleanedUp(old(bindings), bindings, name, listed)
    {
      ghost var was := bindings;
      for i := 0 to |listed|
        invariant forall j :: i <= j < |listed| ==> SameAt(was, bindings, listed[j])
        invariant forall j :: 0 <= j < i ==> CleanedAt(was, bindings, name, listed[j])
        invariant forall k :: k !in listed ==> SameAt(was, bindings, k)
      {
        ghost var before := bindings;
        Clean(name, listed[i]);
        forall j | i < j < |listed| ensures SameAt(was, bindings, listed[j]) {
          OutsideSame(before, bindings, listed[i], listed[j]);
          assert SameAt(was, before, listed[j]);
        }
        forall j | 0 <= j <= i ensures CleanedAt(was, bindings, name, listed[j]) {
          if j < i {
            OutsideSame(before, bindings, listed[i], listed[j]);
          } else {
            assert SameAt(was, before, listed[i]);
          }
        }
        forall k | k !in listed ensures SameAt(was, bindings, k) {
          OutsideSame(before, bindings, listed[i], k);
          assert SameAt(was, before, k);
        }
      }
    }
  }

  predicate SameAt(was: Bindings, now: Bindings, k: (string, string)) {
    (k in now <==> k in was) && (k in now ==> now[k] == was[k])
  }

  lemma OutsideSame(was: Bindings, now: Bindings, changed: (string, string), k: (string, string))
    requires now - {changed} == was - {changed} && k != changed
    ensures SameAt(was, now, k)
  {
    assert k in now <==> k in now - {changed};
    assert k in was <==> k in was - {changed};
    if k in now {
      assert (now - {changed})[k] == now[k];
    }
  }

  /** The listed bindings are cleaned, the others untouched. */
  ghost predicate CleanedUp(was: Bindings, now: Bindings, name: string, listed: seq<(string, string)>) {
    && (forall k :: k in was && k in listed ==> CleanedAt(was, now, name, k))
    && (forall k :: k !in listed ==> SameAt(was, now, k))
  }

  /** With stable labels the index misses nothing: afterwards no binding names the resource, and a
      binding is gone exactly if it named nothing else. */
  lemma NoBindingNamesIt(was: Bindings, now: Bindings, name: string, listed: seq<(string, string)>)
    requires forall k :: k in was ==> was[k].resources != [] && !L.ShouldChangeLabels(was[k])
    requires ListsSelected(was, name, listed)
    requires CleanedUp(was, now, name, listed)
    ensures forall k :: k in now ==> k in was && !L.Names(now[k].resources, name)
    ensures forall k :: k in was ==> (k !in now <==> forall r :: r in was[k].resources ==> r.name == name)
    ensures forall k, r :: k in was && r in was[k].resources && r.name != name ==> k in now && r in now[k].resources
  {
    forall k | k in now ensures k in was {
      assert k !in listed ==> SameAt(was, now, k);
    }
    forall k | k in was
      ensures k in now ==> !L.Names(now[k].resources, name)
      ensures k !in now <==> forall r :: r in was[k].resources ==> r.name == name
      ensures forall r :: r in was[k].resources && r.name != name ==> k in now && r in now[k].resources
    {
      assert k !in listed ==> SameAt(was, now, k);
      CleanupOfOne(was, now, name, listed, k);
    }
  }

  lemma CleanupOfOne(was: Bindings, now: Bindings, name: string, listed: seq<(string, string)>, k: (string, string))
    requires k in was && was[k].resources != [] && !L.ShouldChangeLabels(was[k])
    requires ListsSelected(was, name, listed)
    requires k in listed ==> CleanedAt(was, now, name, k)
    requires k !in listed ==> k in now && now[k] == was[k]
    ensures k in now ==> !L.Names(now[k].resources, name)
    ensures k !in now <==> forall r :: r in was[k].resources ==> r.name == name
    ensures forall r :: r in was[k].resources && r.name != name ==> k in now && r in now[k].resources
  {
    L.IndexIsScan(was[k], name);
    var resources := was[k].resources;
    forall r ensures r in NotNamed(resources, name) <==> r in resources && r.name != name {
      NotNamedIn(resources, name, r);
    }
    if k in listed {
      if k in now {
        forall r ensures r in now[k].resources <==> r in NotNamed(resources, name) {
          assert r in multiset(now[k].resources) <==> r in multiset(NotNamed(resources, name));
        }
        assert NotNamed(resources, name)[0] in NotNamed(resources, name);
      }
    } else {
      assert !L.Names(resources, name);
      assert resources[0].name != name && resources[0] in resources;
      forall r | r in resources ensures r.name != name {
        var i :| 0 <= i < |resources| && resources[i] == r;
      }
    }
  }
}
