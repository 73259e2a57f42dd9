/** Sorting a board's posts into threads (src/thread.c). */
module Thread {
  import opened Bytes

  /** A record of the board's directory. */
  datatype Header = Header(title: Bytes, rest: Bytes)

  const RE: Bytes := [82, 101, 58]

  /** A reply's title goes on after "Re:" and one more character. */
  predicate Readable(h: Header) {
    RE <= h.title ==> |h.title| >= 4
  }

  function Subject(h: Header): Bytes
    requires Readable(h)
  {
    if RE <= h.title then h.title[4..] else h.title
  }

  function Subjects(records: seq<Header>): (t: seq<Bytes>)
    requires forall i :: 0 <= i < |records| ==> Readable(records[i])
    ensures |t| == |records| && forall i :: 0 <= i < |t| ==> t[i] == Subject(records[i])
  {
    seq(|records|, i requires 0 <= i < |records| => Subject(records[i]))
  }

  // ---- groups of record numbers -------------------------------------------

  datatype Group = Group(title: Bytes, nums: seq<nat>)

  /** A number joins the first group of its title, or opens a new one at the end. */
  function Add(groups: seq<Group>, title: Bytes, num: nat): seq<Group> {
    if groups == [] then [Group(title, [num])]
    else if groups[0].title == title then [Group(title, groups[0].nums + [num])] + groups[1..]
    else [groups[0]] + Add(groups[1..], title, num)
  }

  /** The groups of the records 1..n. */
  function Grouped(titles: seq<Bytes>): seq<Group> {
    if titles == [] then []
    else
      var n := |titles|;
      Add(Grouped(titles[..n - 1]), titles[n - 1], n)
  }

  function Flatten(groups: seq<Group>): seq<nat> {
    if groups == [] then [] else groups[0].nums + Flatten(groups[1..])
  }

  /** The order in which the records are written. */
  function Order(titles: seq<Bytes>): seq<nat> {
    Flatten(Grouped(titles))
  }

  function Numbers(n: nat): seq<nat> {
    seq(n, i => i + 1)
  }

  // ---- what the order means -----------------------------------------------

  /** The place of the first record with a title. */
  function Opening(titles: seq<Bytes>, t: Bytes): (i: nat)
    ensures i <= |titles|
  {
    if titles == [] then 0 else if titles[0] == t then 0 else 1 + Opening(titles[1..], t)
  }

  /** Of two records, the one whose thread was opened first comes first; within a thread the
      earlier one. */
  ghost predicate Before(titles: seq<Bytes>, x: nat, y: nat) {
    && 1 <= x <= |titles| && 1 <= y <= |titles|
    && (Opening(titles, titles[x - 1]) < Opening(titles, titles[y - 1]) || (titles[x - 1] == titles[y - 1] && x < y))
  }

  ghost predicate Ordered(titles: seq<Bytes>, nums: seq<nat>) {
    forall a, b :: 0 <= a < b < |nums| ==> Before(titles, nums[a], nums[b])
  }

  /** The records of one group: rising numbers below n, all with its title. */
  ghost predicate Rising(titles: seq<Bytes>, g: Group) {
    && (forall a :: 0 <= a < |g.nums| ==> 1 <= g.nums[a] <= |titles| && titles[g.nums[a] - 1] == g.title)
    && forall a, b :: 0 <= a < b < |g.nums| ==> g.nums[a] < g.nums[b]
  }

  /** Groups in the order of their openings. */
  ghost predicate Sorted(titles: seq<Bytes>, groups: seq<Group>) {
    && (forall i :: 0 <= i < |groups| ==> Rising(titles, groups[i]) && groups[i].title in titles)
    && forall i, j :: 0 <= i < j < |groups| ==>
         Opening(titles, groups[i].title) < Opening(titles, groups[j].title)
  }

  lemma {:induction false} OpeningKept(titles: seq<Bytes>, last: Bytes, t: Bytes)
    ensures t in titles ==> Opening(titles + [last], t) == Opening(titles, t) < |titles|
    ensures t !in titles ==> Opening(titles + [last], t) >= |titles|
    decreases |titles|
  {
    if titles != [] {
      assert (titles + [last])[1..] == titles[1..] + [last];
      OpeningKept(titles[1..], last, t);
    }
  }

  lemma {:induction false} AddAt(groups: seq<Group>, title: Bytes, num: nat, i: nat)
    requires i <= |groups| && forall k :: 0 <= k < i ==> groups[k].title != title
    requires i < |groups| ==> groups[i].title == title
    ensures Add(groups, title, num) ==
            if i < |groups| then groups[i := Group(title, groups[i].nums + [num])]
            else groups + [Group(title, [num])]
    decreases |groups|
  {
    if i > 0 {
      var rest := groups[1..];
      assert groups == [groups[0]] + rest;
      AddAt(rest, title, num, i - 1);
    }
  }

  /** The place where a number goes. */
  function Place(groups: seq<Group>, title: Bytes): (i: nat)
    ensures i <= |groups| && (i < |groups| ==> groups[i].title == title)
    ensures forall k :: 0 <= k < i ==> groups[k].title != title
  {
    if groups == [] || groups[0].title == title then 0 else 1 + Place(groups[1..], title)
  }

  lemma RisingOn(titles: seq<Bytes>, last: Bytes, g: Group)
    requires Rising(titles, g)
    ensures Rising(titles + [last], g)
    ensures g.title == last ==> Rising(titles + [last], Group(last, g.nums + [|titles| + 1]))
  {
  }

  lemma AddSorted(titles: seq<Bytes>, last: Bytes, groups: seq<Group>)
    requires Sorted(titles, groups)
    requires last in titles ==> exists i :: 0 <= i < |groups| && groups[i].title == last
    ensures Sorted(titles + [last], Add(groups, last, |titles| + 1))
  {
    hide Rising, Opening, Add;
    var i := Place(groups, last);
    AddAt(groups, last, |titles| + 1, i);
    var after := Add(groups, last, |titles| + 1);
    forall k | 0 <= k < |groups|
      ensures Rising(titles + [last], after[k]) && after[k].title == groups[k].title && groups[k].title in titles + [last]
      ensures Opening(titles + [last], groups[k].title) == Opening(titles, groups[k].title) < |titles|
    {
      RisingOn(titles, last, groups[k]);
      OpeningKept(titles, last, groups[k].title);
    }
    if i == |groups| {
      OpeningKept(titles, last, last);
      RisingAlone(titles, last);
    }
  }

  lemma RisingAlone(titles: seq<Bytes>, last: Bytes)
    ensures Rising(titles + [last], Group(last, [|titles| + 1]))
  {
  }

  lemma {:induction false} GroupedSorted(titles: seq<Bytes>)
    ensures Sorted(titles, Grouped(titles))
    ensures forall t :: t in titles ==> exists i :: 0 <= i < |Grouped(titles)| && Grouped(titles)[i].title == t
    decreases |titles|
  {
    hide Sorted, Add;
    if titles == [] {
      NothingSorted();
    } else {
      var n := |titles|;
      var before, last := titles[..n - 1], titles[n - 1];
      assert titles == before + [last];
      var groups := Grouped(before);
      GroupedSorted(before);
      AddSorted(before, last, groups);
      var i := Place(groups, last);
      AddAt(groups, last, n, i);
      forall t | t in titles
        ensures exists i :: 0 <= i < |Grouped(titles)| && Grouped(titles)[i].title == t
      {
        if t == last {
          assert Grouped(titles)[i].title == t;
        } else {
          assert t in before;
          var k :| 0 <= k < |groups| && groups[k].title == t;
          assert Grouped(titles)[k].title == t;
        }
      }
    }
  }

  lemma NothingSorted()
    ensures Sorted([], [])
  {
  }

  lemma {:induction false} FlattenFrom(groups: seq<Group>, x: nat)
    requires x in Flatten(groups)
    ensures exists i :: 0 <= i < |groups| && x in groups[i].nums
    decreases |groups|
  {
    if x in groups[0].nums {
    } else {
      FlattenFrom(groups[1..], x);
      var i :| 0 <= i < |groups[1..]| && x in groups[1..][i].nums;
      assert x in groups[i + 1].nums;
    }
  }

  lemma HasTitle(titles: seq<Bytes>, g: Group, x: nat)
    requires Rising(titles, g) && x in g.nums
    ensures 1 <= x <= |titles| && titles[x - 1] == g.title
  {
  }

  lemma AcrossGroups(titles: seq<Bytes>, groups: seq<Group>, x: nat, y: nat)
    requires groups != [] && Sorted(titles, groups) && x in groups[0].nums && y in Flatten(groups[1..])
    ensures Before(titles, x, y)
  {
    hide Opening, Flatten, Rising;
    FlattenFrom(groups[1..], y);
    var i :| 0 <= i < |groups[1..]| && y in groups[1..][i].nums;
    var g := groups[i + 1];
    HasTitle(titles, groups[0], x);
    HasTitle(titles, g, y);
  }

  lemma {:induction false} FlattenOrdered(titles: seq<Bytes>, groups: seq<Group>)
    requires Sorted(titles, groups)
    ensures Ordered(titles, Flatten(groups))
    decreases |groups|
  {
    hide Before;
    if groups != [] {
      var g, rest := groups[0].nums, Flatten(groups[1..]);
      FlattenOrdered(titles, groups[1..]);
      forall a, b | 0 <= a < b < |g + rest|
        ensures Before(titles, (g + rest)[a], (g + rest)[b])
      {
        if b < |g| {
          WithinGroup(titles, groups[0], a, b);
        } else if a < |g| {
          AcrossGroups(titles, groups, g[a], rest[b - |g|]);
        }
      }
    }
  }

  lemma WithinGroup(titles: seq<Bytes>, g: Group, a: nat, b: nat)
    requires Rising(titles, g) && a < b < |g.nums|
    ensures Before(titles, g.nums[a], g.nums[b])
  {
  }

  lemma {:induction false} AddCounts(groups: seq<Group>, title: Bytes, num: nat)
    ensures multiset(Flatten(Add(groups, title, num))) == multiset(Flatten(groups)) + multiset{num}
    decreases |groups|
  {
    if groups != [] {
      var g := groups[0];
      if g.title == title {
        assert Add(groups, title, num)[1..] == groups[1..];
      } else {
        assert Add(groups, title, num)[1..] == Add(groups[1..], title, num);
        AddCounts(groups[1..], title, num);
      }
    }
  }

  lemma {:induction false} OrderIsPermutation(titles: seq<Bytes>)
    ensures multiset(Order(titles)) == multiset(Numbers(|titles|))
    decreases |titles|
  {
    if titles != [] {
      var n := |titles|;
      OrderIsPermutation(titles[..n - 1]);
      AddCounts(Grouped(titles[..n - 1]), titles[n - 1], n);
      assert Numbers(n) == Numbers(n - 1) + [n];
    }
  }

  /** Every record is written once; threads come in the order of their first posts, and the
      posts of a thread in their original order. */
  lemma ThreadOrder(titles: seq<Bytes>)
    ensures multiset(Order(titles)) == multiset(Numbers(|titles|))
    ensures Ordered(titles, Order(titles))
  {
    OrderIsPermutation(titles);
    GroupedSorted(titles);
    FlattenOrdered(titles, Grouped(titles));
  }

  /** Nothing comes between two posts of a thread. */
  lemma ThreadsContiguous(titles: seq<Bytes>, a: nat, b: nat, c: nat)
    requires a < b < c < |Order(titles)|
    ensures var o := Order(titles);
            1 <= o[a] <= |titles| && 1 <= o[b] <= |titles| && 1 <= o[c] <= |titles| &&
            (titles[o[a] - 1] == titles[o[c] - 1] ==> titles[o[b] - 1] == titles[o[a] - 1])
  {
    var o := Order(titles);
    ThreadOrder(titles);
    assert Before(titles, o[a], o[b]) && Before(titles, o[b], o[c]);
  }

  // ---- the linked lists ---------------------------------------------------

  class PostNode {
    const num: nat
    var next: PostNode?
    /** The thread the node belongs to, and its place there. */
    ghost const owner: nat
    ghost const place: nat

    constructor (num: nat, ghost owner: nat, ghost place: nat)
      ensures this.num == num && next == null && this.owner == owner && this.place == place
    {
      this.num, next, this.owner, this.place := num, null, owner, place;
    }
  }

  class TitleNode {
    const title: Bytes
    var next: TitleNode?
    var post: PostNode?
    /** The place of the node in the list; -1 for the list's head. */
    ghost const place: int

    constructor (title: Bytes, ghost place: int)
      ensures this.title == title && next == null && post == null && this.place == place
    {
      this.title, next, post, this.place := title, null, null, place;
    }
  }

  ghost function TitleAt(s: seq<TitleNode>, i: nat): TitleNode? {
    if i < |s| then s[i] else null
  }

  ghost function PostAt(s: seq<PostNode>, i: nat): PostNode? {
    if i < |s| then s[i] else null
  }

  function Nums(s: seq<PostNode>): (nums: seq<nat>)
    ensures |nums| == |s| && forall i :: 0 <= i < |s| ==> nums[i] == s[i].num
  {
    seq(|s|, i requires 0 <= i < |s| => s[i].num)
  }

  /** A list of posts, all of one thread. */
  ghost predicate Chain(first: PostNode?, s: seq<PostNode>, owner: nat)
    reads s
  {
    && first == PostAt(s, 0)
    && forall j :: 0 <= j < |s| ==> s[j].owner == owner && s[j].place == j && s[j].next == PostAt(s, j + 1)
  }

  ghost function GroupsOf(titles: seq<TitleNode>, posts: seq<seq<PostNode>>): (g: seq<Group>)
    requires |posts| == |titles|
    ensures |g| == |titles| && forall i :: 0 <= i < |g| ==> g[i] == Group(titles[i].title, Nums(posts[i]))
  {
    seq(|titles|, i requires 0 <= i < |titles| => Group(titles[i].title, Nums(posts[i])))
  }

  /** Appending a node to a list. */
  method AppendNode(first: PostNode, tmppost: PostNode, ghost s: seq<PostNode>, ghost owner: nat)
    requires Chain(first, s, owner) && tmppost.next == null
    requires tmppost.owner == owner && tmppost.place == |s|
    modifies s
    ensures Chain(first, s + [tmppost], owner)
  {
    var last := first;
    ghost var j := 0;
    while last.next != null
      invariant 0 <= j < |s| && last == s[j]
      decreases |s| - j
    {
      last := last.next;
      j := j + 1;
    }
    last.next := tmppost;
  }

  /** The list of titles behind its head. */
  ghost predicate TitleChain(head: TitleNode, s: seq<TitleNode>)
    reads head`next, s`next
  {
    && head.place == -1 && head.next == TitleAt(s, 0)
    && forall i :: 0 <= i < |s| ==> s[i].place == i && s[i].next == TitleAt(s, i + 1)
  }

  ghost function TitleBefore(head: TitleNode, s: seq<TitleNode>, i: nat): TitleNode
    requires i <= |s|
  {
    if i == 0 then head else s[i - 1]
  }

  lemma TitleAfter(head: TitleNode, s: seq<TitleNode>, i: nat)
    requires TitleChain(head, s) && i <= |s|
    ensures TitleBefore(head, s, i).next == TitleAt(s, i)
  {
  }

  /** A new title at the end of the list. */
  method AddTitle(tmp: TitleNode, title: Bytes, ghost head: TitleNode, ghost s: seq<TitleNode>)
    returns (node: TitleNode)
    requires TitleChain(head, s) && tmp == TitleBefore(head, s, |s|)
    modifies tmp`next
    ensures TitleChain(head, s + [node]) && fresh(node)
    ensures node.title == title && node.post == null && tmp.next == node
  {
    node := new TitleNode(title, |s|);
    tmp.next := node;
  }

  /** Appending a post to a thread, in a new list or in the one there is. */
  method AppendPost(node: TitleNode, num: nat, ghost s: seq<PostNode>, ghost owner: nat)
    returns (tmppost: PostNode)
    requires Chain(node.post, s, owner)
    modifies node`post, s
    ensures Chain(node.post, s + [tmppost], owner) && fresh(tmppost) && tmppost.num == num
  {
    hide Chain;
    tmppost := new PostNode(num, owner, |s|);
    var first := node.post;
    ChainStart(first, s, owner);
    if first == null {
      node.post := tmppost;
      ChainAlone(tmppost, owner);
      assert s + [tmppost] == [tmppost];
    } else {
      AppendNode(first, tmppost, s, owner);
    }
  }

  lemma ChainStart(first: PostNode?, s: seq<PostNode>, owner: nat)
    requires Chain(first, s, owner)
    ensures first == null <==> s == []
  {
  }

  lemma NoPosts(owner: nat)
    ensures Chain(null, [], owner)
  {
  }

  lemma ChainAlone(node: PostNode, owner: nat)
    requires node.owner == owner && node.place == 0 && node.next == null
    ensures Chain(node, [node], owner)
  {
  }

  class Board {
    const toptitle: TitleNode
    ghost var titles: seq<TitleNode>
    ghost var posts: seq<seq<PostNode>>
    ghost var repr: set<object>

    ghost predicate Owned()
      reads this
    {
      && |posts| == |titles| && this in repr && toptitle in repr
      && (forall i :: 0 <= i < |titles| ==> titles[i] in repr)
      && forall i, j :: 0 <= i < |posts| && 0 <= j < |posts[i]| ==> posts[i][j] in repr
    }

    ghost predicate Valid()
      reads this, repr
      ensures Valid() ==> |posts| == |titles|
    {
      && Owned() && TitleChain(toptitle, titles)
      && forall i :: 0 <= i < |titles| ==> Chain(titles[i].post, posts[i], i)
    }

    ghost function Groups(): (g: seq<Group>)
      requires |posts| == |titles|
      reads this
    {
      GroupsOf(titles, posts)
    }

    constructor ()
      ensures Valid() && fresh(repr) && Groups() == []
    {
      toptitle := new TitleNode([], -1);
      titles, posts := [], [];
      new;
      repr := {this, toptitle};
    }

    /** The first half of the loop in `thread`: a title is added when the list has ended. */
    method EnsureTitle(tmp: TitleNode, title: Bytes, ghost i: nat)
      requires Valid() && i <= |titles| && tmp == TitleBefore(toptitle, titles, i)
      modifies `titles, `posts, `repr, tmp`next
      ensures Valid() && fresh(repr - old(repr)) && old(repr) <= repr
      ensures i < |titles| && tmp.next == titles[i]
      ensures i < old(|titles|) ==> titles == old(titles) && posts == old(posts) && repr == old(repr)
      ensures i == old(|titles|) ==> titles == old(titles) + [tmp.next] && posts == old(posts) + [[]] && titles[i].title == title
    {
      hide Chain, TitleChain;
      TitleAfter(toptitle, titles, i);
      if tmp.next == null {
        var node := AddTitle(tmp, title, toptitle, titles);
        titles := titles + [node];
        posts := posts + [[]];
        repr := repr + {node};
        NoPosts(i);
      }
    }

    /** The second half: a post is appended to its thread. */
    method AddPost(node: TitleNode, num: nat, ghost i: nat)
      requires Valid() && i < |titles| && node == titles[i]
      modifies `posts, `repr, node`post, posts[i]
      ensures Valid() && fresh(repr - old(repr))
      ensures |posts| == old(|posts|) && forall k :: 0 <= k < |posts| && k != i ==> posts[k] == old(posts[k])
      ensures Nums(posts[i]) == old(Nums(posts[i])) + [num]
    {
      hide Nums, Chain, TitleChain;
      ghost var s := posts[i];
      Apart(i);
      var tmppost := AppendPost(node, num, s, i);
      posts := posts[i := s + [tmppost]];
      repr := repr + {tmppost};
      NumsAppend(s, tmppost);
      forall k | 0 <= k < |titles|
        ensures Chain(titles[k].post, posts[k], k)
      {
        if k != i {
          assert old(Chain(titles[k].post, posts[k], k));
        }
      }
    }

    /** No node is in two lists. */
    lemma Apart(i: nat)
      requires Valid() && i < |titles|
      ensures forall k :: 0 <= k < |titles| && k != i ==> titles[k] != titles[i]
      ensures forall k, j :: 0 <= k < |posts| && k != i && 0 <= j < |posts[k]| ==> posts[k][j] !in posts[i]
    {
      forall k | 0 <= k < |titles| && k != i
        ensures titles[k] != titles[i]
        ensures forall j :: 0 <= j < |posts[k]| ==> posts[k][j] !in posts[i]
      {
        assert titles[k].place == k;
        assert Chain(titles[k].post, posts[k], k) && Chain(titles[i].post, posts[i], i);
      }
    }

    lemma Owns(i: nat)
      requires Valid() && i <= |titles|
      ensures this in repr && TitleBefore(toptitle, titles, i) in repr
      ensures i < |titles| ==> titles[i] in repr && forall p :: p in posts[i] ==> p in repr
    {
    }

    /** thread */
    method Thread(post: Header, num: nat)
      requires Valid() && Readable(post)
      modifies this, repr
      ensures Valid() && fresh(repr - old(repr))
      ensures Groups() == Add(old(Groups()), Subject(post), num)
    {
      hide Add, Nums, Valid, GroupsOf;
      var tmp := toptitle;
      var ntitle := if RE <= post.title then post.title[4..] else post.title;
      ghost var i := 0;
      while true
        invariant Valid() && repr == old(repr) && titles == old(titles) && posts == old(posts)
        invariant 0 <= i <= |titles| && tmp == TitleBefore(toptitle, titles, i)
        invariant forall k :: 0 <= k < i ==> titles[k].title != ntitle
        decreases |titles| - i
      {
        Owns(i);
        EnsureTitle(tmp, ntitle, i);
        if tmp.next.title == ntitle {
          ghost var before := posts;
          Owns(i);
          AddPost(tmp.next, num, i);
          GroupsAdded(old(titles), old(posts), titles, before, posts, ntitle, i, num);
          return;
        } else {
          tmp := tmp.next;
          i := i + 1;
        }
      }
    }

    /** visit_all: the records in the order of the lists. */
    method VisitAll(records: seq<Header>) returns (out: seq<Header>)
      requires Valid() && InRange(records, Flatten(Groups()))
      ensures out == Picked(records, Flatten(Groups()))
    {
      hide Nums, Flatten, Picked, Chain, TitleChain, InRange, Owned;
      TitleAfter(toptitle, titles, 0);
      out := [];
      ghost var g := Groups();
      ghost var todo := Flatten(g);
      var tmp := toptitle.next;
      ghost var i := 0;
      assert g[0..] == g;
      while tmp != null
        invariant 0 <= i <= |titles| && tmp == TitleAt(titles, i)
        invariant todo == Flatten(g[i..]) && InRange(records, todo)
        invariant out + Picked(records, todo) == Picked(records, Flatten(g))
        decreases |titles| - i
      {
        FlattenNext(g, i);
        PickedJoin(records, Nums(posts[i]), Flatten(g[i + 1..]));
        todo := Flatten(g[i + 1..]);
        var posted := VisitPosts(tmp.post, records, posts[i], i);
        out := out + posted;
        TitleAfter(toptitle, titles, i + 1);
        tmp := tmp.next;
        i := i + 1;
      }
      NothingPicked(records, g[i..]);
    }
  }

  /** The inner loop of visit_all. */
  method VisitPosts(first: PostNode?, records: seq<Header>, ghost s: seq<PostNode>, ghost owner: nat)
    returns (out: seq<Header>)
    requires Chain(first, s, owner) && InRange(records, Nums(s))
    ensures out == Picked(records, Nums(s))
  {
    hide Picked, Chain, Nums, InRange;
    out := [];
    var tmppost := first;
    ghost var j := 0;
    ghost var nums := Nums(s);
    ChainNext(first, s, owner, 0);
    while tmppost != null
      invariant 0 <= j <= |s| && tmppost == PostAt(s, j)
      invariant out == Picked(records, nums)[..j]
      decreases |s| - j
    {
      ChainNext(first, s, owner, j);
      PickedNext(records, nums, j);
      out := out + [records[tmppost.num - 1]];
      tmppost := tmppost.next;
      j := j + 1;
    }
  }

  lemma ChainNext(first: PostNode?, s: seq<PostNode>, owner: nat, j: nat)
    requires Chain(first, s, owner)
    ensures first == PostAt(s, 0)
    ensures j < |s| ==> s[j].next == PostAt(s, j + 1)
  {
  }

  lemma PickedNext(records: seq<Header>, nums: seq<nat>, j: nat)
    requires InRange(records, nums) && j < |nums|
    ensures 1 <= nums[j] <= |records|
    ensures Picked(records, nums)[..j + 1] == Picked(records, nums)[..j] + [records[nums[j] - 1]]
  {
    assert nums[j] in nums;
  }

  lemma NumsAppend(s: seq<PostNode>, node: PostNode)
    ensures Nums(s + [node]) == Nums(s) + [node.num]
  {
  }

  /** Where the number goes before its thread is there. */
  lemma AddToGroup(titles: seq<TitleNode>, posts: seq<seq<PostNode>>, titles': seq<TitleNode>,
                   posts': seq<seq<PostNode>>, title: Bytes, i: nat)
    requires |titles| == |posts| && |titles'| == |posts'| && i <= |titles| && i < |titles'|
    requires titles' == titles || (i == |titles| && |titles'| == i + 1 && titles'[..i] == titles)
    requires posts' == posts || (i == |posts| && posts' == posts + [[]])
    requires forall k :: 0 <= k < i ==> titles[k].title != title
    requires titles'[i].title == title
    ensures GroupsOf(titles', posts') == (if i < |titles| then GroupsOf(titles, posts) else GroupsOf(titles, posts) + [Group(title, [])])
    ensures forall k :: 0 <= k < i ==> GroupsOf(titles, posts)[k].title != title
    ensures i < |titles| ==> GroupsOf(titles, posts)[i].title == title
  {
    assert Nums([]) == [];
  }

  lemma AppendedGroups(titles: seq<TitleNode>, posts: seq<seq<PostNode>>, posts': seq<seq<PostNode>>, i: nat, num: nat)
    requires |titles| == |posts| == |posts'| && i < |titles|
    requires forall k :: 0 <= k < |posts| && k != i ==> posts'[k] == posts[k]
    requires Nums(posts'[i]) == Nums(posts[i]) + [num]
    ensures var g := GroupsOf(titles, posts); GroupsOf(titles, posts') == g[i := Group(g[i].title, g[i].nums + [num])]
  {
  }

  lemma GroupsAdded(titles: seq<TitleNode>, posts: seq<seq<PostNode>>, titles': seq<TitleNode>,
                    posts': seq<seq<PostNode>>, posts'': seq<seq<PostNode>>, title: Bytes, i: nat, num: nat)
    requires |titles| == |posts| && |titles'| == |posts'| == |posts''| && i <= |titles| && i < |titles'|
    requires titles' == titles || (i == |titles| && |titles'| == i + 1 && titles'[..i] == titles)
    requires posts' == posts || (i == |posts| && posts' == posts + [[]])
    requires forall k :: 0 <= k < i ==> titles[k].title != title
    requires titles'[i].title == title
    requires forall k :: 0 <= k < |posts'| && k != i ==> posts''[k] == posts'[k]
    requires Nums(posts''[i]) == Nums(posts'[i]) + [num]
    ensures GroupsOf(titles', posts'') == Add(GroupsOf(titles, posts), title, num)
  {
    hide GroupsOf, Nums, Add;
    AddToGroup(titles, posts, titles', posts', title, i);
    AppendedGroups(titles', posts', posts'', i, num);
    AddAt(GroupsOf(titles, posts), title, num, i);
    OpenedGroup(GroupsOf(titles, posts), title, num);
  }

  lemma OpenedGroup(g: seq<Group>, title: Bytes, num: nat)
    ensures var h := g + [Group(title, [])];
            h[|g| := Group(title, [] + [num])] == g + [Group(title, [num])] && h[|g|] == Group(title, [])
  {
    var h := g + [Group(title, [])];
    assert [] + [num] == [num];
    assert h[|g| := Group(title, [num])] == g + [Group(title, [num])];
  }

  predicate InRange(records: seq<Header>, nums: seq<nat>) {
    forall x :: x in nums ==> 1 <= x <= |records|
  }

  /** The records with some numbers, counted from 1. */
  function Picked(records: seq<Header>, nums: seq<nat>): (out: seq<Header>)
    requires InRange(records, nums)
    ensures |out| == |nums|
    ensures forall i :: 0 <= i < |out| ==> nums[i] in nums && out[i] == records[nums[i] - 1]
  {
    seq(|nums|, i requires 0 <= i < |nums| => assert nums[i] in nums; records[nums[i] - 1])
  }

  lemma PickedJoin(records: seq<Header>, a: seq<nat>, b: seq<nat>)
    requires InRange(records, a + b)
    ensures InRange(records, a) && InRange(records, b)
    ensures Picked(records, a + b) == Picked(records, a) + Picked(records, b)
  {
    assert forall x :: x in a || x in b ==> x in a + b;
  }

  lemma FlattenNext(groups: seq<Group>, i: nat)
    requires i < |groups|
    ensures Flatten(groups[i..]) == groups[i].nums + Flatten(groups[i + 1..])
  {
    assert groups[i..][1..] == groups[i + 1..];
  }

  lemma NothingPicked(records: seq<Header>, groups: seq<Group>)
    requires groups == []
    ensures Flatten(groups) == [] && Picked(records, []) == []
  {
  }

  predicate AllReadable(records: seq<Header>) {
    forall i :: 0 <= i < |records| ==> Readable(records[i])
  }

  /** The records in the order of their threads; `ThreadOrder` says what that order is. */
  function Threaded(records: seq<Header>): (out: seq<Header>)
    requires AllReadable(records)
    ensures |out| == |records|
  {
    var order := Order(Subjects(records));
    OrderIsPermutation(Subjects(records));
    NumbersInRange(|records|, order);
    Picked(records, order)
  }

  // ---- threads by their titles --------------------------------------------

  /** A title is on a subject: it is "Re:", one character and the subject, or the subject
      alone if that does not itself begin with "Re:". */
  predicate On(t: Bytes, title: Bytes) {
    || (|title| >= 4 && title[0] == 82 && title[1] == 101 && title[2] == 58 && title[4..] == t)
    || (title == t && !(|t| >= 3 && t[0] == 82 && t[1] == 101 && t[2] == 58))
  }

  /** Some post on the first subject was made before any post on the second. */
  ghost predicate OpensBefore(records: seq<Header>, t: Bytes, u: Bytes) {
    exists w :: 0 <= w < |records| && On(t, records[w].title) &&
      forall v :: 0 <= v < |records| && On(u, records[v].title) ==> w < v
  }

  /** Posts on one subject keep their order; subjects come in the order of their first posts. */
  ghost predicate Earlier(records: seq<Header>, x: int, y: int) {
    && 0 <= x < |records| && 0 <= y < |records|
    && forall t, u :: On(t, records[x].title) && On(u, records[y].title) ==>
         if t == u then x < y else OpensBefore(records, t, u)
  }

  /** The places of all records, in the order of their threads. */
  ghost predicate Arranged(records: seq<Header>, o: seq<int>) {
    && |o| == |records|
    && (forall x :: 0 <= x < |records| ==> x in o)
    && forall a, b :: 0 <= a < b < |o| ==> Earlier(records, o[a], o[b])
  }

  lemma OnSubject(h: Header, t: Bytes)
    requires Readable(h)
    ensures On(t, h.title) <==> Subject(h) == t
  {
  }

  lemma {:induction false} OpeningLeast(titles: seq<Bytes>, t: Bytes)
    ensures Opening(titles, t) < |titles| ==> titles[Opening(titles, t)] == t
    ensures forall k :: 0 <= k < |titles| && titles[k] == t ==> Opening(titles, t) <= k
    decreases |titles|
  {
    if titles != [] && titles[0] != t {
      OpeningLeast(titles[1..], t);
      forall k | 0 <= k < |titles| && titles[k] == t
        ensures Opening(titles, t) <= k
      {
        assert titles[1..][k - 1] == t;
      }
    }
  }

  lemma BeforeIsEarlier(records: seq<Header>, x: nat, y: nat)
    requires AllReadable(records) && Before(Subjects(records), x, y)
    ensures Earlier(records, x - 1, y - 1)
  {
    hide On, Subject, Opening, OpensBefore;
    forall t, u | On(t, records[x - 1].title) && On(u, records[y - 1].title)
      ensures if t == u then x - 1 < y - 1 else OpensBefore(records, t, u)
    {
      OnSubject(records[x - 1], t);
      OnSubject(records[y - 1], u);
      assert Subjects(records)[x - 1] == t && Subjects(records)[y - 1] == u;
      if t != u {
        OpeningOpens(records, t, u);
      }
    }
  }

  lemma OpeningOpens(records: seq<Header>, t: Bytes, u: Bytes)
    requires AllReadable(records) && Opening(Subjects(records), t) < Opening(Subjects(records), u)
    ensures OpensBefore(records, t, u)
  {
    hide On, Subject, Opening;
    var titles := Subjects(records);
    OpeningLeast(titles, t);
    OpeningLeast(titles, u);
    var w := Opening(titles, t);
    OnSubject(records[w], t);
    forall v | 0 <= v < |records| && On(u, records[v].title)
      ensures w < v
    {
      OnSubject(records[v], u);
      assert titles[v] == u;
    }
  }

  /** Numbers counted from 1 as places. */
  function Places(order: seq<int>): (o: seq<int>)
    ensures |o| == |order| && forall i :: 0 <= i < |o| ==> o[i] == order[i] - 1
  {
    seq(|order|, i requires 0 <= i < |order| => order[i] - 1)
  }

  lemma AllPlaces(n: nat, order: seq<nat>)
    requires multiset(order) == multiset(Numbers(n))
    ensures forall x :: 0 <= x < n ==> x in Places(order)
  {
    forall x | 0 <= x < n
      ensures x in Places(order)
    {
      assert Numbers(n)[x] == x + 1;
      assert x + 1 in multiset(Numbers(n));
      assert x + 1 in order;
      var i :| 0 <= i < |order| && order[i] == x + 1;
      assert Places(order)[i] == x;
    }
  }

  lemma AllEarlier(records: seq<Header>, order: seq<nat>)
    requires AllReadable(records) && Ordered(Subjects(records), order)
    ensures forall a, b :: 0 <= a < b < |order| ==> Earlier(records, Places(order)[a], Places(order)[b])
  {
    hide Before, Earlier;
    forall a, b | 0 <= a < b < |order|
      ensures Earlier(records, Places(order)[a], Places(order)[b])
    {
      assert Before(Subjects(records), order[a], order[b]);
      BeforeIsEarlier(records, order[a], order[b]);
    }
  }

  lemma PlacesArranged(records: seq<Header>)
    requires AllReadable(records)
    ensures var o := Places(Order(Subjects(records)));
            Arranged(records, o) && forall i :: 0 <= i < |o| ==> 0 <= o[i] < |records| && Threaded(records)[i] == records[o[i]]
  {
    hide Earlier, Order, Ordered, Numbers, Places, Subjects, Picked;
    var order := Order(Subjects(records));
    ThreadOrder(Subjects(records));
    NumbersInRange(|records|, order);
    AllPlaces(|records|, order);
    AllEarlier(records, order);
    forall i | 0 <= i < |order|
      ensures 1 <= order[i] <= |records|
    {
      assert order[i] in order;
    }
  }

  /** The posts on a subject, replies and all, stand together and in their original order. */
  lemma RepliesFollow(records: seq<Header>, o: seq<int>, t: Bytes, a: nat, b: nat, c: nat)
    requires AllReadable(records) && Arranged(records, o) && a < b < c < |o|
    requires 0 <= o[a] < |records| && 0 <= o[b] < |records| && 0 <= o[c] < |records|
    requires On(t, records[o[a]].title) && On(t, records[o[c]].title)
    ensures On(t, records[o[b]].title) && o[a] < o[b] < o[c]
  {
    hide On, Subject;
    assert Earlier(records, o[a], o[b]) && Earlier(records, o[b], o[c]) && Earlier(records, o[a], o[c]);
    var u := Subject(records[o[b]]);
    OnSubject(records[o[b]], u);
  }

  /** A plain title is on itself alone, so plain titles share a thread exactly when they are
      equal, and a reply to one is on it too. */
  lemma PlainThreads(title: Bytes, other: Bytes, c: Byte)
    requires !(|title| >= 3 && title[0] == 82 && title[1] == 101 && title[2] == 58)
    requires !(|other| >= 3 && other[0] == 82 && other[1] == 101 && other[2] == 58)
    ensures (exists t :: On(t, title) && On(t, other)) <==> title == other
    ensures On(title, [82, 101, 58] + [c] + title)
    ensures On(title, title)
  {
    assert ([82, 101, 58] + [c] + title)[4..] == title;
    assert On(title, title);
  }

  /** The program: a directory in, its threads out. No record is lost or doubled. */
  method ThreadBoard(records: seq<Header>) returns (out: seq<Header>)
    requires AllReadable(records)
    ensures out == Threaded(records) && multiset(out) == multiset(records)
    ensures exists o :: Arranged(records, o) && |out| == |o| &&
              forall i :: 0 <= i < |out| ==> 0 <= o[i] < |records| && out[i] == records[o[i]]
  {
    hide Board.Valid, Add, Flatten, Numbers, Picked, Arranged, Places;
    var board := new Board();
    ghost var titles := Subjects(records);
    var i := 0;
    while i < |records|
      invariant 0 <= i <= |records| && board.Valid() && fresh(board.repr)
      invariant board.Groups() == Grouped(titles[..i])
    {
      GroupedNext(titles, i);
      board.Thread(records[i], i + 1);
      i := i + 1;
    }
    assert titles[..i] == titles;
    OrderIsPermutation(titles);
    NumbersInRange(|records|, Order(titles));
    out := board.VisitAll(records);
    ThreadedSame(records);
    PlacesArranged(records);
  }

  lemma ThreadedSame(records: seq<Header>)
    requires AllReadable(records)
    ensures multiset(Threaded(records)) == multiset(records)
  {
    var n, order := |records|, Order(Subjects(records));
    OrderIsPermutation(Subjects(records));
    NumbersInRange(n, order);
    NumbersInRange(n, Numbers(n));
    SamePicks(records, order, Numbers(n));
    assert Picked(records, Numbers(n)) == records;
  }

  function Without<T>(s: seq<T>, k: nat): (r: seq<T>)
    requires k < |s|
    ensures |r| == |s| - 1
  {
    s[..k] + s[k + 1..]
  }

  lemma WithoutCounts<T>(s: seq<T>, k: nat)
    requires k < |s|
    ensures multiset(s) == multiset(Without(s, k)) + multiset{s[k]}
  {
    assert s == s[..k] + ([s[k]] + s[k + 1..]);
  }

  lemma SameRest(a: multiset<nat>, b: multiset<nat>, x: nat)
    requires a + multiset{x} == b + multiset{x}
    ensures a == b
  {
    assert a == a + multiset{x} - multiset{x};
    assert b == b + multiset{x} - multiset{x};
  }

  /** One number picks one record. */
  lemma PickOne(records: seq<Header>, b: seq<nat>, k: nat)
    requires InRange(records, b) && k < |b|
    ensures 1 <= b[k] <= |records| && InRange(records, Without(b, k))
    ensures multiset(Picked(records, b)) == multiset(Picked(records, Without(b, k))) + multiset{records[b[k] - 1]}
  {
    assert b[k] in b;
    assert forall x :: x in Without(b, k) ==> x in b;
    WithoutCounts(Picked(records, b), k);
    PickedWithout(records, b, k);
  }

  lemma PickedWithout(records: seq<Header>, b: seq<nat>, k: nat)
    requires InRange(records, b) && k < |b| && InRange(records, Without(b, k))
    ensures Picked(records, Without(b, k)) == Without(Picked(records, b), k)
  {
  }

  /** The same numbers in another order pick the same records. */
  lemma {:induction false} SamePicks(records: seq<Header>, a: seq<nat>, b: seq<nat>)
    requires InRange(records, a) && InRange(records, b) && multiset(a) == multiset(b)
    ensures multiset(Picked(records, a)) == multiset(Picked(records, b))
    decreases |a|
  {
    hide Picked, InRange, Without;
    if a == [] {
      assert |multiset(b)| == 0;
      assert b == [];
    } else {
      assert a[0] in multiset(b);
      var k :| 0 <= k < |b| && b[k] == a[0];
      WithoutCounts(a, 0);
      WithoutCounts(b, k);
      PickOne(records, a, 0);
      PickOne(records, b, k);
      SameRest(multiset(Without(a, 0)), multiset(Without(b, k)), a[0]);
      SamePicks(records, Without(a, 0), Without(b, k));
    }
  }

  lemma GroupedNext(titles: seq<Bytes>, i: nat)
    requires i < |titles|
    ensures Grouped(titles[..i + 1]) == Add(Grouped(titles[..i]), titles[i], i + 1)
  {
    hide Add;
    assert titles[..i + 1][..i] == titles[..i];
  }

  lemma NumbersInRange(n: nat, order: seq<nat>)
    requires multiset(order) == multiset(Numbers(n))
    ensures |order| == n && forall x :: x in order ==> 1 <= x <= n
  {
    assert |multiset(order)| == |order| && |multiset(Numbers(n))| == n;
    forall x | x in order
      ensures 1 <= x <= n
    {
      assert x in multiset(order);
      assert x in Numbers(n);
    }
  }
}
