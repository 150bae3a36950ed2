/**
 * The form-element tree of an XForm definition (FormElementModel) and the
 * recursive searches Form runs over it: find an element by name, list the REPEAT
 * groups, and build the map from repeat-group name to element.
 */
module FormTree {
  import opened Wrappers

  /**
   * FormElementModel.ElementType. The helpers modelled here only ever ask whether an
   * element is a REPEAT, so the remaining element types are folded into two cases.
   */
  datatype ElementType = Repeat | Group | Field

  /** A FormElementModel: its element name, its type and its ordered children. */
  datatype Node = Node(name: string, kind: ElementType, children: seq<Node>)

  /** The number of elements in the subtree rooted at n. */
  function Size(n: Node): (k: nat)
    ensures k >= 1
    decreases n, 1
  {
    1 + ForestSize(n.children)
  }

  function ForestSize(ns: seq<Node>): nat
    decreases ns, 0
  {
    if ns == [] then 0 else Size(ns[0]) + ForestSize(ns[1..])
  }

  /** Every element of the subtree, in depth-first pre-order: the node, then each child's subtree. */
  function PreOrder(n: Node): (s: seq<Node>)
    ensures |s| >= 1 && s[0] == n
    decreases n, 1
  {
    [n] + PreOrderForest(n.children)
  }

  /** The pre-order listings of a sequence of sibling subtrees, one after another. */
  function PreOrderForest(ns: seq<Node>): seq<Node>
    decreases ns, 0
  {
    if ns == [] then [] else PreOrder(ns[0]) + PreOrderForest(ns[1..])
  }

  /** The strict descendants of n, in pre-order. */
  function Descendants(n: Node): seq<Node>
  {
    PreOrderForest(n.children)
  }

  lemma {:induction false} PreOrderForestAppend(a: seq<Node>, b: seq<Node>)
    ensures PreOrderForest(a + b) == PreOrderForest(a) + PreOrderForest(b)
    decreases |a|
  {
    if a == [] {
      assert a + b == b;
    } else {
      assert (a + b)[1..] == a[1..] + b;
      PreOrderForestAppend(a[1..], b);
    }
  }

  /** Extending a prefix of the children by one child extends the listing by that child's subtree. */
  lemma PreOrderForestSnoc(ns: seq<Node>, i: nat)
    requires i < |ns|
    ensures PreOrderForest(ns[..i + 1]) == PreOrderForest(ns[..i]) + PreOrder(ns[i])
  {
    assert ns[..i + 1] == ns[..i] + [ns[i]];
    PreOrderForestAppend(ns[..i], [ns[i]]);
    assert [ns[i]][1..] == [];
  }

  /** Every strict descendant of n is a smaller tree than n, so n is never its own descendant. */
  lemma {:induction false} DescendantsSmaller(n: Node)
    ensures forall x :: x in Descendants(n) ==> Size(x) < Size(n)
    decreases n, 1
  {
    ForestMembersBounded(n.children);
  }

  lemma {:induction false} ForestMembersBounded(ns: seq<Node>)
    ensures forall x :: x in PreOrderForest(ns) ==> Size(x) <= ForestSize(ns)
    decreases ns, 0
  {
    if ns != [] {
      DescendantsSmaller(ns[0]);
      ForestMembersBounded(ns[1..]);
    }
  }

  // ---------------------------------------------------------------------------
  // findElementByNameHelper

  /** The first element of s whose name is `name`, or null: the reference for the search. */
  function FirstNamed(s: seq<Node>, name: string): (r: Option<Node>)
    ensures r.None? <==> forall i :: 0 <= i < |s| ==> s[i].name != name
    ensures r.Some? ==> exists i :: 0 <= i < |s| && s[i] == r.value && r.value.name == name
                                    && forall j :: 0 <= j < i ==> s[j].name != name
  {
    if s == [] then None
    else if s[0].name == name then Some(s[0])
    else
      var r := FirstNamed(s[1..], name);
      assert forall i :: 1 <= i < |s| ==> s[i] == s[1..][i - 1];
      r
  }

  lemma {:induction false} FirstNamedAppend(a: seq<Node>, b: seq<Node>, name: string)
    ensures FirstNamed(a + b, name) == if FirstNamed(a, name).Some? then FirstNamed(a, name) else FirstNamed(b, name)
    decreases |a|
  {
    if a == [] {
      assert a + b == b;
    } else {
      assert (a + b)[1..] == a[1..] + b;
      FirstNamedAppend(a[1..], b, name);
    }
  }

  /**
   * findElementByNameHelper: the current element if its name matches, otherwise the
   * first hit among the children, searched one after another; null when nothing matches.
   */
  function FindElementByNameHelper(current: Node, name: string): (r: Option<Node>)
    ensures r.Some? ==> r.value.name == name
    decreases current, 1
  {
    if current.name == name then Some(current) else FindInChildren(current.children, name)
  }

  /** The loop over the children of findElementByNameHelper, stopping at the first non-null result. */
  function FindInChildren(children: seq<Node>, name: string): (r: Option<Node>)
    ensures r.Some? ==> r.value.name == name
    decreases children, 0
  {
    if children == [] then None
    else
      var m := FindElementByNameHelper(children[0], name);
      if m.Some? then m else FindInChildren(children[1..], name)
  }

  /** The search returns exactly the first element named `name` in depth-first pre-order. */
  lemma {:induction false} FindElementIsFirstInPreOrder(current: Node, name: string)
    ensures FindElementByNameHelper(current, name) == FirstNamed(PreOrder(current), name)
    decreases current, 1
  {
    FirstNamedAppend([current], PreOrderForest(current.children), name);
    if current.name != name {
      FindInChildrenIsFirst(current.children, name);
    }
  }

  lemma {:induction false} FindInChildrenIsFirst(children: seq<Node>, name: string)
    ensures FindInChildren(children, name) == FirstNamed(PreOrderForest(children), name)
    decreases children, 0
  {
    if children != [] {
      FindElementIsFirstInPreOrder(children[0], name);
      FindInChildrenIsFirst(children[1..], name);
      FirstNamedAppend(PreOrder(children[0]), PreOrderForest(children[1..]), name);
    }
  }

  /** The search fails exactly when no element of the tree carries the name. */
  lemma FindElementNullIffAbsent(current: Node, name: string)
    ensures FindElementByNameHelper(current, name).None? <==>
            forall x :: x in PreOrder(current) ==> x.name != name
  {
    FindElementIsFirstInPreOrder(current, name);
  }

  // ---------------------------------------------------------------------------
  // getRepeatGroupsInModelHelper

  /** The REPEAT elements of s, in the order of s. */
  function RepeatsIn(s: seq<Node>): seq<Node>
  {
    if s == [] then []
    else if s[0].kind == Repeat then [s[0]] + RepeatsIn(s[1..])
    else RepeatsIn(s[1..])
  }

  /** RepeatsIn keeps exactly the REPEAT elements. */
  lemma {:induction false} RepeatsInMembers(s: seq<Node>)
    ensures forall x :: x in RepeatsIn(s) <==> x in s && x.kind == Repeat
  {
    if s != [] {
      RepeatsInMembers(s[1..]);
      assert forall x :: x in s <==> x == s[0] || x in s[1..];
    }
  }

  lemma {:induction false} RepeatsInAppend(a: seq<Node>, b: seq<Node>)
    ensures RepeatsIn(a + b) == RepeatsIn(a) + RepeatsIn(b)
    decreases |a|
  {
    if a == [] {
      assert a + b == b;
    } else {
      assert (a + b)[1..] == a[1..] + b;
      RepeatsInAppend(a[1..], b);
    }
  }

  /**
   * getRepeatGroupsInModelHelper: for each child, in order, appends the child when it is a
   * REPEAT and then recurses into it. The Java list `accumulation` is threaded through
   * as a value: the result is the accumulation the Java call leaves behind.
   */
  method GetRepeatGroupsInModelHelper(current: Node, accumulation: seq<Node>) returns (result: seq<Node>)
    ensures result == accumulation + RepeatsIn(Descendants(current))
    decreases current
  {
    result := accumulation;
    var i := 0;
    while i < |current.children|
      invariant 0 <= i <= |current.children|
      invariant result == accumulation + RepeatsIn(PreOrderForest(current.children[..i]))
    {
      var m := current.children[i];
      if m.kind == Repeat {
        result := result + [m];
      }
      result := GetRepeatGroupsInModelHelper(m, result);
      RepeatsStep(accumulation, current.children, i, result);
      i := i + 1;
    }
    assert current.children[..i] == current.children;
  }

  /** One turn of the helper's loop: the child, if a REPEAT, then the child's own repeats. */
  lemma RepeatsStep(acc: seq<Node>, cs: seq<Node>, i: nat, result: seq<Node>)
    requires i < |cs|
    requires result == acc + RepeatsIn(PreOrderForest(cs[..i])) + RepeatsIn([cs[i]]) + RepeatsIn(Descendants(cs[i]))
    ensures result == acc + RepeatsIn(PreOrderForest(cs[..i + 1]))
  {
    PreOrderForestSnoc(cs, i);
    RepeatsInAppend(PreOrderForest(cs[..i]), PreOrder(cs[i]));
    RepeatsInAppend([cs[i]], Descendants(cs[i]));
  }

  /** The repeat groups listed under the top-level group never include the top-level group itself. */
  lemma RepeatGroupsExcludeRoot(top: Node)
    ensures top !in RepeatsIn(Descendants(top))
  {
    DescendantsSmaller(top);
    RepeatsInMembers(Descendants(top));
  }

  // ---------------------------------------------------------------------------
  // populateRepeatElementMap

  /** One step of populateRepeatElementMap: a REPEAT element is put under its name. */
  function PutIfRepeat(m: map<string, Node>, n: Node): map<string, Node>
  {
    if n.kind == Repeat then m[n.name := n] else m
  }

  /** Visiting s in order, putting every REPEAT element under its name (later puts overwrite). */
  function PutRepeats(m: map<string, Node>, s: seq<Node>): map<string, Node>
    decreases |s|
  {
    if s == [] then m else PutRepeats(PutIfRepeat(m, s[0]), s[1..])
  }

  lemma {:induction false} PutRepeatsAppend(m: map<string, Node>, a: seq<Node>, b: seq<Node>)
    ensures PutRepeats(m, a + b) == PutRepeats(PutRepeats(m, a), b)
    decreases |a|
  {
    if a == [] {
      assert a + b == b;
    } else {
      assert (a + b)[1..] == a[1..] + b;
      PutRepeatsAppend(PutIfRepeat(m, a[0]), a[1..], b);
    }
  }

  /** The map populateRepeatElementMap builds from an empty map over the tree rooted at top. */
  function RepeatElementMap(top: Node): map<string, Node>
  {
    PutRepeats(map[], PreOrder(top))
  }

  /** A name not carried by any REPEAT element of s keeps whatever it was mapped to. */
  lemma {:induction false} PutRepeatsOtherKeys(m: map<string, Node>, s: seq<Node>, k: string)
    requires forall j :: 0 <= j < |s| ==> !(s[j].kind == Repeat && s[j].name == k)
    ensures (k in PutRepeats(m, s)) == (k in m)
    ensures k in m ==> PutRepeats(m, s)[k] == m[k]
    decreases |s|
  {
    if s != [] {
      assert forall j :: 1 <= j < |s| ==> s[1..][j - 1] == s[j];
      PutRepeatsOtherKeys(PutIfRepeat(m, s[0]), s[1..], k);
    }
  }

  /** Later duplicates win: a name maps to the LAST REPEAT element of s that carries it. */
  lemma {:induction false} PutRepeatsLastWins(m: map<string, Node>, s: seq<Node>, i: nat)
    requires i < |s| && s[i].kind == Repeat
    requires forall j :: i < j < |s| ==> !(s[j].kind == Repeat && s[j].name == s[i].name)
    ensures s[i].name in PutRepeats(m, s) && PutRepeats(m, s)[s[i].name] == s[i]
    decreases |s|
  {
    if i == 0 {
      assert forall j :: 0 <= j < |s[1..]| ==> s[1..][j] == s[j + 1];
      PutRepeatsOtherKeys(PutIfRepeat(m, s[0]), s[1..], s[0].name);
    } else {
      assert forall j :: i - 1 < j < |s[1..]| ==> s[1..][j] == s[j + 1];
      PutRepeatsLastWins(PutIfRepeat(m, s[0]), s[1..], i - 1);
    }
  }

  /** Some REPEAT element of s carries the name k. */
  predicate HasRepeatNamed(s: seq<Node>, k: string)
  {
    exists j :: 0 <= j < |s| && s[j].kind == Repeat && s[j].name == k
  }

  lemma HasRepeatNamedCons(s: seq<Node>, k: string)
    requires s != []
    ensures HasRepeatNamed(s, k) <==> (s[0].kind == Repeat && s[0].name == k) || HasRepeatNamed(s[1..], k)
  {
    if HasRepeatNamed(s, k) {
      var j :| 0 <= j < |s| && s[j].kind == Repeat && s[j].name == k;
      if j > 0 { assert s[1..][j - 1] == s[j]; }
    }
    if HasRepeatNamed(s[1..], k) {
      var j :| 0 <= j < |s[1..]| && s[1..][j].kind == Repeat && s[1..][j].name == k;
      assert s[j + 1] == s[1..][j];
    }
  }

  /** The keys of the built map are exactly the old keys plus the names of the REPEAT elements visited. */
  lemma {:induction false} PutRepeatsKeys(m: map<string, Node>, s: seq<Node>)
    ensures forall k :: k in PutRepeats(m, s) <==> k in m || HasRepeatNamed(s, k)
    decreases |s|
  {
    if s != [] {
      PutRepeatsKeys(PutIfRepeat(m, s[0]), s[1..]);
      forall k
        ensures k in PutRepeats(m, s) <==> k in m || HasRepeatNamed(s, k)
      {
        HasRepeatNamedCons(s, k);
      }
    }
  }
}
