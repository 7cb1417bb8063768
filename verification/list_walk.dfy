/** Walking a singly linked, null-terminated list from head to tail, pushing
    one output value for every node a partial map accepts: the shape of both
    traversals in src/getifaddrs.rs. The list is a sequence; the partial map
    is a function into Option. */
module ListWalk {
  import opened IfTypes

  /** The values `f` produces, in list order, for the nodes it accepts. */
  function FilterMap<A, B>(f: A -> Option<B>, s: seq<A>): (r: seq<B>)
    ensures |r| <= |s|
    ensures |r| == |s| ==> forall i :: 0 <= i < |s| ==> f(s[i]).Some?
  {
    if |s| == 0 then []
    else
      match f(s[0])
      case Some(b) => [b] + FilterMap(f, s[1..])
      case None => FilterMap(f, s[1..])
  }

  /** Strictly increasing positions. */
  ghost predicate Increasing(idx: seq<nat>)
  {
    forall i, j :: 0 <= i < j < |idx| ==> idx[i] < idx[j]
  }

  /** The positions of the nodes `f` accepts, in ascending order: a reference
      definition of the filter that does not build any output. */
  function Accepted<A, B>(f: A -> Option<B>, s: seq<A>): (idx: seq<nat>)
    ensures forall k :: 0 <= k < |idx| ==> idx[k] < |s| && f(s[idx[k]]).Some?
    ensures Increasing(idx)
  {
    if |s| == 0 then []
    else
      var rest := Accepted(f, s[1..]);
      var shifted := seq(|rest|, k requires 0 <= k < |rest| => rest[k] + 1);
      assert forall k :: 0 <= k < |rest| ==> s[shifted[k]] == s[1..][rest[k]];
      if f(s[0]).Some? then [0] + shifted else shifted
  }

  /** Every node `f` accepts has its position among the accepted ones. */
  lemma {:induction false} AcceptedComplete<A, B>(f: A -> Option<B>, s: seq<A>, i: int)
    requires 0 <= i < |s| && f(s[i]).Some?
    ensures i in Accepted(f, s)
  {
    if i > 0 {
      var rest := Accepted(f, s[1..]);
      assert s[1..][i - 1] == s[i];
      AcceptedComplete(f, s[1..], i - 1);
      var k :| 0 <= k < |rest| && rest[k] == i - 1;
      var idx := Accepted(f, s);
      if f(s[0]).Some? {
        assert idx[k + 1] == i;
      } else {
        assert idx[k] == i;
      }
    }
  }

  /** The filter-map is the accepted nodes, mapped, in their list order: its
      output is an order-preserving subsequence of the input after mapping. */
  lemma {:induction false} FilterMapIsAcceptedMapped<A, B>(f: A -> Option<B>, s: seq<A>)
    ensures var r, idx := FilterMap(f, s), Accepted(f, s);
      && |r| == |idx|
      && forall k :: 0 <= k < |idx| ==> f(s[idx[k]]) == Some(r[k])
  {
    if |s| > 0 {
      FilterMapIsAcceptedMapped(f, s[1..]);
      var r, idx := FilterMap(f, s), Accepted(f, s);
      var r', rest := FilterMap(f, s[1..]), Accepted(f, s[1..]);
      var shifted := seq(|rest|, k requires 0 <= k < |rest| => rest[k] + 1);
      assert forall k :: 0 <= k < |rest| ==> s[shifted[k]] == s[1..][rest[k]];
      if f(s[0]).Some? {
        assert r == [f(s[0]).value] + r' && idx == [0] + shifted;
        forall k | 0 <= k < |idx|
          ensures f(s[idx[k]]) == Some(r[k])
        {
          if k > 0 {
            assert idx[k] == shifted[k - 1] && r[k] == r'[k - 1];
          }
        }
      } else {
        assert r == r' && idx == shifted;
      }
    }
  }

  /** Every output value comes from some accepted node. */
  lemma FilterMapSound<A, B>(f: A -> Option<B>, s: seq<A>, k: int)
    requires 0 <= k < |FilterMap(f, s)|
    ensures exists i :: 0 <= i < |s| && f(s[i]) == Some(FilterMap(f, s)[k])
  {
    FilterMapIsAcceptedMapped(f, s);
    var i := Accepted(f, s)[k];
    assert f(s[i]) == Some(FilterMap(f, s)[k]);
  }

  /** Every accepted node contributes its value to the output. */
  lemma FilterMapComplete<A, B>(f: A -> Option<B>, s: seq<A>, i: int)
    requires 0 <= i < |s| && f(s[i]).Some?
    ensures f(s[i]).value in FilterMap(f, s)
  {
    FilterMapIsAcceptedMapped(f, s);
    AcceptedComplete(f, s, i);
    var idx := Accepted(f, s);
    var k :| 0 <= k < |idx| && idx[k] == i;
    assert FilterMap(f, s)[k] == f(s[i]).value;
  }

  /** Walking two lists one after the other gives the two outputs one after
      the other: the filter-map keeps the input order. */
  lemma {:induction false} FilterMapAppend<A, B>(f: A -> Option<B>, s: seq<A>, t: seq<A>)
    ensures FilterMap(f, s + t) == FilterMap(f, s) + FilterMap(f, t)
  {
    if |s| == 0 {
      assert s + t == t;
    } else {
      assert (s + t)[1..] == s[1..] + t;
      FilterMapAppend(f, s[1..], t);
    }
  }

  /** One more node at the tail adds its value, if accepted, at the tail. */
  lemma FilterMapSnoc<A, B>(f: A -> Option<B>, s: seq<A>, x: A)
    ensures FilterMap(f, s + [x]) ==
      FilterMap(f, s) + (match f(x) case Some(b) => [b] case None => [])
  {
    FilterMapAppend(f, s, [x]);
    assert [x][1..] == [];
  }
}
