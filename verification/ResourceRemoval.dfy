/** What deleting a MultiClusterResource does to the bindings that name it. */
module ResourceRemoval {
  import opened Slices
  import opened BindingModel

  function Named(resources: seq<BindingResource>, name: string): seq<BindingResource> {
    if resources == [] then []
    else
      Named(resources[..|resources| - 1], name)
      + if resources[|resources| - 1].name == name then [resources[|resources| - 1]] else []
  }

  function NotNamed(resources: seq<BindingResource>, name: string): seq<BindingResource> {
    if resources == [] then []
    else
      NotNamed(resources[..|resources| - 1], name)
      + if resources[|resources| - 1].name == name then [] else [resources[|resources| - 1]]
  }

  lemma NamedLast(init: seq<BindingResource>, last: BindingResource, name: string)
    ensures Named(init + [last], name) == Named(init, name) + if last.name == name then [last] else []
    ensures NotNamed(init + [last], name) == NotNamed(init, name) + if last.name == name then [] else [last]
  {
    assert (init + [last])[..|init|] == init;
  }

  lemma NoneNamed(name: string)
    ensures Named([], name) == [] == NotNamed([], name)
  {
  }

  lemma {:induction false} NamedSplits(resources: seq<BindingResource>, name: string)
    ensures multiset(Named(resources, name)) + multiset(NotNamed(resources, name)) == multiset(resources)
    decreases |resources|
  {
    hide Named, NotNamed;
    if resources == [] {
      NoneNamed(name);
    } else {
      var init, last := resources[..|resources| - 1], resources[|resources| - 1];
      NamedSplits(init, name);
      NamedLast(init, last, name);
      assert resources == init + [last];
    }
  }

  lemma NamedStep(resources: seq<BindingResource>, name: string, i: nat)
    requires i < |resources|
    ensures Named(resources[..i + 1], name)
      == Named(resources[..i], name) + if resources[i].name == name then [resources[i]] else []
    ensures multiset(Named(resources[..i + 1], name)) <= multiset(resources)
  {
    assert resources[..i + 1][..i] == resources[..i];
    NamedSplits(resources[..i + 1], name);
    assert resources == resources[..i + 1] + resources[i + 1..];
  }

  /** What is left and what was removed so far make up the original list. */
  ghost predicate Balanced(resources: seq<BindingResource>, name: string, i: nat, left: seq<BindingResource>) {
    i <= |resources| && multiset(left) + multiset(Named(resources[..i], name)) == multiset(resources)
  }

  lemma AtTheEnd(resources: seq<BindingResource>, name: string, left: seq<BindingResource>)
    requires Balanced(resources, name, |resources|, left)
    ensures multiset(left) == multiset(NotNamed(resources, name))
  {
    assert resources[..|resources|] == resources;
    NamedSplits(resources, name);
    Cancel(multiset(left), multiset(NotNamed(resources, name)), multiset(Named(resources, name)));
  }

  lemma Cancel<T>(a: multiset<T>, b: multiset<T>, gone: multiset<T>)
    requires a + gone == gone + b
    ensures a == b
  {
    assert (a + gone) - gone == a && (gone + b) - gone == b;
  }

  lemma SkipOther(resources: seq<BindingResource>, name: string, i: nat, left: seq<BindingResource>)
    requires i < |resources| && resources[i].name != name && Balanced(resources, name, i, left)
    ensures Balanced(resources, name, i + 1, left)
  {
    NamedStep(resources, name, i);
  }

  lemma NextIsLeft(resources: seq<BindingResource>, name: string, i: nat, left: seq<BindingResource>)
    requires i < |resources| && resources[i].name == name
    requires Balanced(resources, name, i, left)
    ensures resources[i] in left
  {
    var r := resources[i];
    NamedStep(resources, name, i);
    assert multiset(Named(resources[..i + 1], name))[r] == multiset(Named(resources[..i], name))[r] + 1;
    assert multiset(left)[r] > 0;
  }

  lemma NextIsGone(resources: seq<BindingResource>, name: string, i: nat, left: seq<BindingResource>,
                   rest: seq<BindingResource>)
    requires i < |resources| && resources[i].name == name && resources[i] in left
    requires Balanced(resources, name, i, left)
    requires multiset(rest) == multiset(left) - multiset{resources[i]}
    ensures Balanced(resources, name, i + 1, rest)
  {
    NamedStep(resources, name, i);
    assert multiset(left) == multiset(rest) + multiset{resources[i]};
  }

  /** The find-and-remove loop of updateBinding over one binding. It ranges over the list as it was,
      while the binding's list shrinks; what is left is the list without the name, up to order. */
  method RemoveFromBinding(resources: seq<BindingResource>, name: string) returns (left: seq<BindingResource>)
    ensures multiset(left) == multiset(NotNamed(resources, name))
  {
    left := resources;
    assert resources[..0] == [];
    for i := 0 to |resources|
      invariant Balanced(resources, name, i, left)
    {
      if resources[i].name == name {
        NextIsLeft(resources, name, i, left);
        var rest := RemoveObject(left, resources[i]);
        NextIsGone(resources, name, i, left, rest);
        left := rest;
      } else {
        SkipOther(resources, name, i, left);
      }
    }
    AtTheEnd(resources, name, left);
  }

  lemma {:induction false} NotNamedIn(resources: seq<BindingResource>, name: string, r: BindingResource)
    ensures r in NotNamed(resources, name) <==> r in resources && r.name != name
  {
    if resources != [] {
      NotNamedIn(resources[..|resources| - 1], name, r);
      assert resources == resources[..|resources| - 1] + [resources[|resources| - 1]];
    }
  }
}
