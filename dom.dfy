/**
 * The rendered page as the extractor sees it. A page, and the inside of every
 * element, is a sequence of elements in document order. CSS selectors are
 * opaque tags: an element carries the set of selectors it matches, and a
 * comma-separated selector list matches an element when one of its members does.
 */
module Dom {
  import opened Wrappers

  type Selector = string

  /**
   * One element: the selectors it matches, its `textContent` (absent for
   * nodes whose `textContent` is null), its `src` property (absent on
   * elements that have none), its rendered `width`, and the elements inside
   * it in document order.
   */
  datatype Element = Element(
    tags: set<Selector>,
    text: Option<string>,
    src: Option<string>,
    width: int,
    descendants: seq<Element>)

  /** The element matches the selector list `group` (`a, b, c`). */
  predicate Matches(e: Element, group: set<Selector>) {
    e.tags * group != {}
  }

  /** `querySelector(group)`: the first element in document order that matches, if any. */
  function QuerySelector(nodes: seq<Element>, group: set<Selector>): (r: Option<Element>)
    ensures r.None? <==> forall i :: 0 <= i < |nodes| ==> !Matches(nodes[i], group)
    ensures r.Some? ==> exists i :: 0 <= i < |nodes| && nodes[i] == r.value && IsFirstMatch(nodes, group, i)
  {
    if nodes == [] then None
    else if Matches(nodes[0], group) then (assert IsFirstMatch(nodes, group, 0); Some(nodes[0]))
    else
      var r := QuerySelector(nodes[1..], group);
      assert r.Some? ==> exists i :: 0 <= i < |nodes| && nodes[i] == r.value && IsFirstMatch(nodes, group, i) by {
        if r.Some? {
          var i :| 0 <= i < |nodes| - 1 && nodes[1..][i] == r.value && IsFirstMatch(nodes[1..], group, i);
          assert IsFirstMatch(nodes, group, i + 1);
        }
      }
      r
  }

  /** Index `i` holds the first element of `nodes` that matches `group`. */
  predicate IsFirstMatch(nodes: seq<Element>, group: set<Selector>, i: int) {
    0 <= i < |nodes| && Matches(nodes[i], group) && forall j :: 0 <= j < i ==> !Matches(nodes[j], group)
  }

  /** `querySelector` returns the element at the first matching index. */
  lemma QuerySelectorAtFirstMatch(nodes: seq<Element>, group: set<Selector>, i: int)
    requires IsFirstMatch(nodes, group, i)
    ensures QuerySelector(nodes, group) == Some(nodes[i])
  {
    var r := QuerySelector(nodes, group);
    var k :| 0 <= k < |nodes| && nodes[k] == r.value && IsFirstMatch(nodes, group, k);
    assert !(k < i) && !(i < k);
  }

  /** `querySelectorAll(group)`: every matching element, in document order. */
  function QuerySelectorAll(nodes: seq<Element>, group: set<Selector>): (r: seq<Element>)
    ensures |r| <= |nodes|
    ensures forall e :: e in r <==> e in nodes && Matches(e, group)
  {
    if nodes == [] then []
    else
      var init := nodes[..|nodes| - 1];
      var last := nodes[|nodes| - 1];
      assert nodes == init + [last];
      QuerySelectorAll(init, group) + (if Matches(last, group) then [last] else [])
  }

  /** Document order is kept: the matches in `a + b` are the matches in `a` followed by those in `b`. */
  lemma {:induction false} QuerySelectorAllAppend(a: seq<Element>, b: seq<Element>, group: set<Selector>)
    ensures QuerySelectorAll(a + b, group) == QuerySelectorAll(a, group) + QuerySelectorAll(b, group)
    decreases |b|
  {
    if b == [] {
      assert a + b == a;
    } else {
      var b' := b[..|b| - 1];
      assert (a + b)[..|a + b| - 1] == a + b';
      QuerySelectorAllAppend(a, b', group);
    }
  }

}
