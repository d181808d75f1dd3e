/** Comments of a post: replies grouped under the root comments of one page. */
module Comments {
  datatype Root = Root(id: string, content: string)
  datatype Reply = Reply(rootId: string, content: string)
  datatype Thread = Thread(root: Root, children: seq<Reply>)

  predicate DistinctRoots(roots: seq<Root>) { forall i, j :: 0 <= i < j < |roots| ==> roots[i].id != roots[j].id }

  /** The replies to one root, in their original order. */
  function RepliesTo(replies: seq<Reply>, rootId: string): seq<Reply> {
    if replies == [] then []
    else
      var last := |replies| - 1;
      RepliesTo(replies[..last], rootId) + if replies[last].rootId == rootId then [replies[last]] else []
  }

  /** The replies to a root are all those that name it, at increasing places of the input: none moves past another. */
  lemma {:induction false} RepliesKeepOrder(replies: seq<Reply>, rootId: string) returns (at: seq<nat>)
    ensures |at| == |RepliesTo(replies, rootId)|
    ensures forall j, k :: 0 <= j < k < |at| ==> at[j] < at[k]
    ensures forall j :: 0 <= j < |at| ==> at[j] < |replies| && RepliesTo(replies, rootId)[j] == replies[at[j]]
    ensures forall i: nat :: i < |replies| ==> (i in at <==> replies[i].rootId == rootId)
  {
    at := [];
    if replies != [] {
      var last := |replies| - 1;
      at := RepliesKeepOrder(replies[..last], rootId);
      assert forall j :: 0 <= j < |at| ==> at[j] in at && at[j] < last;
      if replies[last].rootId == rootId { at := at + [last]; }
    }
  }

  /** Root ids are primary keys: the query returns each root once. */
  method GetCommentsByPost(roots: seq<Root>, replies: seq<Reply>) returns (results: seq<Thread>)
    requires DistinctRoots(roots)
    ensures |results| == |roots|
    ensures forall i :: 0 <= i < |roots| ==> results[i] == Thread(roots[i], RepliesTo(replies, roots[i].id))
  {
    var commentMap: map<string, Thread> := map[];
    var k := 0;
    while k < |roots|
      invariant 0 <= k <= |roots|
      invariant forall i :: 0 <= i < k ==> roots[i].id in commentMap && commentMap[roots[i].id] == Thread(roots[i], [])
      invariant forall id :: id in commentMap ==> exists i :: 0 <= i < k && roots[i].id == id
    {
      commentMap := commentMap[roots[k].id := Thread(roots[k], [])];
      k := k + 1;
    }
    assert replies[..0] == [];
    k := 0;
    while k < |replies|
      invariant 0 <= k <= |replies|
      invariant forall i :: 0 <= i < |roots| ==>
                  roots[i].id in commentMap
                  && commentMap[roots[i].id] == Thread(roots[i], RepliesTo(replies[..k], roots[i].id))
    {
      var reply := replies[k];
      assert replies[..k + 1][..k] == replies[..k];
      if reply.rootId in commentMap {
        var parent := commentMap[reply.rootId];
        commentMap := commentMap[reply.rootId := parent.(children := parent.children + [reply])];
      }
      k := k + 1;
    }
    assert replies[..k] == replies;
    results := seq(|roots|, i requires 0 <= i < |roots| => commentMap[roots[i].id]);
  }

  /** All replies of a page of threads, as a bag. */
  function Bag(roots: seq<Root>, replies: seq<Reply>): multiset<Reply> {
    if roots == [] then multiset{}
    else Bag(roots[..|roots| - 1], replies) + multiset(RepliesTo(replies, roots[|roots| - 1].id))
  }

  predicate OnPage(roots: seq<Root>, reply: Reply) { exists i :: 0 <= i < |roots| && roots[i].id == reply.rootId }

  function RepliesOnPage(roots: seq<Root>, replies: seq<Reply>): seq<Reply> {
    if replies == [] then []
    else
      var last := |replies| - 1;
      RepliesOnPage(roots, replies[..last]) + if OnPage(roots, replies[last]) then [replies[last]] else []
  }

  lemma OnPageSplit(roots: seq<Root>, reply: Reply)
    requires roots != [] && DistinctRoots(roots)
    ensures var last := |roots| - 1;
            && (OnPage(roots, reply) <==> OnPage(roots[..last], reply) || roots[last].id == reply.rootId)
            && !(OnPage(roots[..last], reply) && roots[last].id == reply.rootId)
  {
    var last := |roots| - 1;
    if i :| 0 <= i < last && roots[..last][i].id == reply.rootId { assert roots[i].id == reply.rootId; }
    if i :| 0 <= i <= last && roots[i].id == reply.rootId { assert i < last ==> roots[..last][i].id == reply.rootId; }
  }

  lemma RepliesOfOneMore(replies: seq<Reply>, reply: Reply, rootId: string)
    ensures multiset(RepliesTo(replies + [reply], rootId))
            == multiset(RepliesTo(replies, rootId)) + if reply.rootId == rootId then multiset{reply} else multiset{}
  {
    assert (replies + [reply])[..|replies|] == replies;
  }

  lemma {:induction false} BagOfOneMore(roots: seq<Root>, replies: seq<Reply>, reply: Reply)
    requires DistinctRoots(roots)
    ensures Bag(roots, replies + [reply])
            == Bag(roots, replies) + if OnPage(roots, reply) then multiset{reply} else multiset{}
  {
    if roots != [] {
      var last := |roots| - 1;
      OnPageSplit(roots, reply);
      RepliesOfOneMore(replies, reply, roots[last].id);
      BagOfOneMore(roots[..last], replies, reply);
    }
  }

  /** No reply of the page's roots is lost, duplicated or invented, and replies to other roots are left out. */
  lemma {:induction false} GroupingConserves(roots: seq<Root>, replies: seq<Reply>)
    requires DistinctRoots(roots)
    ensures Bag(roots, replies) == multiset(RepliesOnPage(roots, replies))
    decreases |replies|
  {
    if replies == [] {
      EmptyBag(roots);
    } else {
      var last := |replies| - 1;
      assert replies == replies[..last] + [replies[last]];
      GroupingConserves(roots, replies[..last]);
      BagOfOneMore(roots, replies[..last], replies[last]);
    }
  }

  lemma {:induction false} EmptyBag(roots: seq<Root>)
    ensures Bag(roots, []) == multiset{}
  {
    if roots != [] { EmptyBag(roots[..|roots| - 1]); }
  }
}
