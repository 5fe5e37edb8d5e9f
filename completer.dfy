/**
 * The prefix-tree completer of the console package (console/completer.go).
 *
 * The tree is a value: every node is reachable along exactly one path from
 * the head, so building it by creating children in place (as the source
 * does through pointers) yields the same tree as rebuilding the path.
 */
module Completer {
  import opened Wrappers

  /** `lcNode`: one child per next rune, and `end` set when the path that
      leads to the node is itself a word of the list. */
  datatype LcNode = LcNode(children: map<char, LcNode>, end: bool)

  /** `listCompleter`: the head of the tree and the list it was built from. */
  datatype ListCompleter = ListCompleter(head: LcNode, list: seq<string>)

  /** The node the builder starts from and creates for every new rune. */
  const Fresh := LcNode(map[], false)

  /** The node reached from `n` by following one child edge per rune of `s`. */
  function Walk(n: LcNode, s: string): Option<LcNode>
    decreases |s|
  {
    if s == [] then Some(n)
    else if s[0] in n.children then Walk(n.children[s[0]], s[1..])
    else None
  }

  /** `w` spells a path from `n` that ends on a node marked `end`. */
  predicate Accepts(n: LcNode, w: string)
    decreases |w|
  {
    if w == [] then n.end
    else w[0] in n.children && Accepts(n.children[w[0]], w[1..])
  }

  /** A node that some word passes through or ends at. */
  predicate Live(n: LcNode) {
    n.end || n.children != map[]
  }

  /** Every node below `n` is live: the builder never creates a dead branch. */
  predicate Pruned(n: LcNode)
    decreases n
  {
    forall c :: c in n.children ==> Live(n.children[c]) && Pruned(n.children[c])
  }

  lemma HasLeast(keys: set<char>)
    requires keys != {}
    ensures exists c :: c in keys && forall d :: d in keys ==> c <= d
  {
    var c := LeastWitness(keys);
  }

  lemma LeastWitness(keys: set<char>) returns (c: char)
    requires keys != {}
    ensures c in keys && forall d :: d in keys ==> c <= d
  {
    c :| c in keys;
    if keys != {c} {
      var m := LeastWitness(keys - {c});
      forall d | d in keys ensures d == c || d in keys - {c} { }
      if m < c {
        c := m;
      }
    }
  }

  /** The order in which the model visits children. The source visits them
      in Go's unspecified map order; nothing below depends on the order. */
  function Least(keys: set<char>): (c: char)
    requires keys != {}
    ensures c in keys && forall d :: d in keys ==> c <= d
  {
    HasLeast(keys);
    var c :| c in keys && forall d :: d in keys ==> c <= d; c
  }

  // ---------------------------------------------------------------------
  // Building the tree (NewListCompleter)
  // ---------------------------------------------------------------------

  /** The inner loop of NewListCompleter: follow `word` from `n`, creating
      each missing child, and mark the last node `end`. */
  function Insert(n: LcNode, word: string): (r: LcNode)
    decreases |word|
  {
    if word == [] then LcNode(n.children, true)
    else
      var child := if word[0] in n.children then n.children[word[0]] else Fresh;
      LcNode(n.children[word[0] := Insert(child, word[1..])], n.end)
  }

  /** The tree the outer loop of NewListCompleter has built after `list`. */
  function Build(list: seq<string>): LcNode
    decreases |list|
  {
    if list == [] then Fresh else Insert(Build(list[..|list| - 1]), list[|list| - 1])
  }

  /** Inserting a word adds exactly that word to the words of the tree. */
  lemma {:induction false} InsertAccepts(n: LcNode, word: string, w: string)
    ensures Accepts(Insert(n, word), w) <==> Accepts(n, w) || w == word
    decreases |word|
  {
    if word != [] && w != [] && w[0] == word[0] {
      var child := if word[0] in n.children then n.children[word[0]] else Fresh;
      InsertAccepts(child, word[1..], w[1..]);
      assert w == [w[0]] + w[1..] && word == [word[0]] + word[1..];
      if word[0] !in n.children {
        assert !Accepts(Fresh, w[1..]);
      }
    }
  }

  /** Inserting keeps every branch live, and the node itself becomes live. */
  lemma {:induction false} InsertPruned(n: LcNode, word: string)
    requires Pruned(n)
    ensures Pruned(Insert(n, word)) && Live(Insert(n, word))
    decreases |word|
  {
    if word != [] {
      var child := if word[0] in n.children then n.children[word[0]] else Fresh;
      InsertPruned(child, word[1..]);
      assert word[0] in Insert(n, word).children;
    }
  }

  /** Listing a word that is already in the tree changes nothing: the walk
      follows existing children and re-sets `end` where it is already set. */
  lemma {:induction false} InsertExisting(n: LcNode, word: string)
    requires Accepts(n, word)
    ensures Insert(n, word) == n
    decreases |word|
  {
    if word != [] {
      InsertExisting(n.children[word[0]], word[1..]);
      assert n.children[word[0] := n.children[word[0]]] == n.children;
    }
  }

  /** After building, the words of the tree are exactly the words of the list. */
  lemma {:induction false} BuildAccepts(list: seq<string>, w: string)
    ensures Accepts(Build(list), w) <==> w in list
    decreases |list|
  {
    if list != [] {
      var init := list[..|list| - 1];
      BuildAccepts(init, w);
      InsertAccepts(Build(init), list[|list| - 1], w);
      assert list == init + [list[|list| - 1]];
    }
  }

  lemma {:induction false} BuildPruned(list: seq<string>)
    ensures Pruned(Build(list))
    decreases |list|
  {
    if list != [] {
      BuildPruned(list[..|list| - 1]);
      InsertPruned(Build(list[..|list| - 1]), list[|list| - 1]);
    }
  }

  /** A live node of a pruned tree ends some word. */
  lemma {:induction false} LiveAcceptsSome(n: LcNode) returns (w: string)
    requires Pruned(n) && Live(n)
    ensures Accepts(n, w)
    decreases n
  {
    if n.end {
      w := [];
    } else {
      var c :| c in n.children;
      var rest := LiveAcceptsSome(n.children[c]);
      w := [c] + rest;
      assert w[1..] == rest;
    }
  }

  /** A pruned tree is determined by its words. */
  lemma {:induction false} SameWordsSameTree(a: LcNode, b: LcNode)
    requires Pruned(a) && Pruned(b)
    requires forall w :: Accepts(a, w) <==> Accepts(b, w)
    ensures a == b
    decreases a
  {
    assert Accepts(a, []) == Accepts(b, []);
    forall c | c in a.children ensures c in b.children {
      var w := LiveAcceptsSome(a.children[c]);
      assert ([c] + w)[1..] == w;
      assert Accepts(a, [c] + w);
    }
    forall c | c in b.children ensures c in a.children {
      var w := LiveAcceptsSome(b.children[c]);
      assert ([c] + w)[1..] == w;
      assert Accepts(b, [c] + w);
    }
    forall c | c in a.children ensures a.children[c] == b.children[c] {
      forall w ensures Accepts(a.children[c], w) <==> Accepts(b.children[c], w) {
        assert ([c] + w)[1..] == w;
        assert Accepts(a, [c] + w) <==> Accepts(b, [c] + w);
      }
      SameWordsSameTree(a.children[c], b.children[c]);
    }
    assert a.children.Keys == b.children.Keys;
    assert a.children == b.children;
  }

  /** The tree depends only on which words are listed: neither their order
      nor repetitions change it. */
  lemma BuildIgnoresOrderAndDuplicates(a: seq<string>, b: seq<string>)
    requires forall w :: w in a <==> w in b
    ensures Build(a) == Build(b)
  {
    BuildPruned(a);
    BuildPruned(b);
    forall w ensures Accepts(Build(a), w) <==> Accepts(Build(b), w) {
      BuildAccepts(a, w);
      BuildAccepts(b, w);
    }
    SameWordsSameTree(Build(a), Build(b));
  }

  /** A duplicate entry leaves the built tree as it was. */
  lemma BuildDuplicate(list: seq<string>, w: string)
    requires w in list
    ensures Build(list + [w]) == Build(list)
  {
    BuildAccepts(list, w);
    assert (list + [w])[..|list + [w]| - 1] == list;
    InsertExisting(Build(list), w);
  }

  /** NewListCompleter: insert every word of the list into a fresh head. */
  method NewListCompleter(list: seq<string>) returns (lc: ListCompleter)
    ensures lc.list == list && lc.head == Build(list)
    ensures forall w :: Accepts(lc.head, w) <==> w in list
  {
    var head := Fresh;
    for i := 0 to |list|
      invariant head == Build(list[..i])
    {
      assert list[..i + 1][..i] == list[..i];
      head := Insert(head, list[i]);
    }
    assert list[..|list|] == list;
    forall w ensures Accepts(head, w) <==> w in list {
      BuildAccepts(list, w);
    }
    lc := ListCompleter(head, list);
  }

  // ---------------------------------------------------------------------
  // Querying the tree (Complete, lcNodeDFS)
  // ---------------------------------------------------------------------

  /** lcNodeDFS(n, running, prev): append to `prev` every terminal path below
      `n`, each spelled from the start of the input (`running`), and return
      the unambiguous prefix: it extends through `n` only when `n` is not
      terminal and has exactly one child. */
  function Dfs(n: LcNode, running: string, prev: multiset<string>): (r: (string, multiset<string>))
    ensures forall w :: r.1[w] == prev[w] + (if running <= w && Accepts(n, w[|running|..]) then 1 else 0)
    ensures running <= r.0
    ensures forall w :: r.1[w] > prev[w] ==> r.0 <= w
    ensures n.end || |n.children| != 1 ==> r.0 == running
    ensures !n.end && |n.children| == 1 ==> running + [Least(n.children.Keys)] <= r.0
    decreases n, 1
  {
    var acc := if n.end then prev + multiset{running} else prev;
    var visited := Children(n, running, n.children.Keys, running, acc);
    DfsCount(n, running, prev, acc, visited.1);
    if |n.children| == 1 && !n.end then visited else (running, visited.1)
  }

  /** The loop of lcNodeDFS over the children whose runes are in `keys`:
      each call adds its matches to the running collection, and the prefix
      is the one returned by the last child visited. */
  function Children(n: LcNode, running: string, keys: set<char>, prefix: string, prev: multiset<string>)
    : (r: (string, multiset<string>))
    requires keys <= n.children.Keys
    ensures forall w :: r.1[w] == prev[w] + (if InChildren(n, running, keys, w) then 1 else 0)
    ensures keys == {} ==> r.0 == prefix
    ensures |keys| == 1 ==> running + [Least(keys)] <= r.0 && forall w :: r.1[w] > prev[w] ==> r.0 <= w
    decreases n, 0, keys
  {
    if keys == {} then (prefix, prev)
    else
      var c := Least(keys);
      var child := Dfs(n.children[c], running + [c], prev);
      ChildrenStep(n, running, keys, c, prev, child.1);
      assert keys == (keys - {c}) + {c};
      assert |keys| == 1 ==> keys - {c} == {};
      Children(n, running, keys - {c}, child.0, child.1)
  }

  /** `w` continues `running` through the child of `n` at one of `keys`. */
  predicate InChildren(n: LcNode, running: string, keys: set<char>, w: string)
    requires keys <= n.children.Keys
  {
    |running| < |w| && running <= w && w[|running|] in keys
    && Accepts(n.children[w[|running|]], w[|running| + 1..])
  }

  lemma ChildrenStep(n: LcNode, running: string, keys: set<char>, c: char, prev: multiset<string>, m: multiset<string>)
    requires keys <= n.children.Keys && c in keys
    requires forall w :: m[w] == prev[w] + (if running + [c] <= w && Accepts(n.children[c], w[|running| + 1..]) then 1 else 0)
    ensures forall w :: m[w] + (if InChildren(n, running, keys - {c}, w) then 1 else 0)
                        == prev[w] + (if InChildren(n, running, keys, w) then 1 else 0)
  {
    forall w ensures m[w] + (if InChildren(n, running, keys - {c}, w) then 1 else 0)
                     == prev[w] + (if InChildren(n, running, keys, w) then 1 else 0)
    {
      if running + [c] <= w {
        assert w[|running|] == c;
      }
      if |running| < |w| && running <= w && w[|running|] == c {
        assert running + [c] == w[..|running| + 1];
      }
    }
  }

  lemma DfsCount(n: LcNode, running: string, prev: multiset<string>, acc: multiset<string>, m: multiset<string>)
    requires acc == if n.end then prev + multiset{running} else prev
    requires forall w :: m[w] == acc[w] + (if InChildren(n, running, n.children.Keys, w) then 1 else 0)
    ensures forall w :: m[w] == prev[w] + (if running <= w && Accepts(n, w[|running|..]) then 1 else 0)
  {
    forall w ensures m[w] == prev[w] + (if running <= w && Accepts(n, w[|running|..]) then 1 else 0) {
      if running <= w {
        AcceptsSplit(n, running, w);
        if |w| == |running| { assert w == running; }
      }
      if InChildren(n, running, n.children.Keys, w) { assert w != running; }
    }
  }

  /** The words below `n` spelled from `running`, split by first rune. */
  lemma AcceptsSplit(n: LcNode, running: string, w: string)
    requires running <= w
    ensures Accepts(n, w[|running|..]) <==>
            (|w| == |running| && n.end) || InChildren(n, running, n.children.Keys, w)
  {
    if |w| > |running| {
      assert w[|running|..][1..] == w[|running| + 1..];
    }
  }

  lemma {:induction false} WalkAppend(n: LcNode, s: string, c: char)
    ensures Walk(n, s + [c]) ==
            if Walk(n, s).Some? && c in Walk(n, s).value.children
            then Some(Walk(n, s).value.children[c]) else None
    decreases |s|
  {
    if s == [] {
      assert [c][1..] == [];
    } else {
      assert (s + [c])[1..] == s[1..] + [c];
      if s[0] in n.children {
        WalkAppend(n.children[s[0]], s[1..], c);
      }
    }
  }

  lemma {:induction false} WalkNoneExtends(n: LcNode, p: string, s: string)
    requires p <= s && Walk(n, p) == None
    ensures Walk(n, s) == None
    decreases |p|
  {
    assert p != [];
    assert s[0] == p[0];
    if p[0] in n.children {
      WalkNoneExtends(n.children[p[0]], p[1..], s[1..]);
    }
  }

  /** A word with prefix `p` is accepted from `n` exactly when the rest of
      it is accepted from the node that `p` leads to. */
  lemma {:induction false} WalkAccepts(n: LcNode, p: string, w: string)
    requires p <= w
    ensures Accepts(n, w) <==> Walk(n, p).Some? && Accepts(Walk(n, p).value, w[|p|..])
    decreases |p|
  {
    if p != [] {
      assert w[0] == p[0];
      if p[0] in n.children {
        WalkAccepts(n.children[p[0]], p[1..], w[1..]);
        assert w[1..][|p| - 1..] == w[|p|..];
      }
    }
  }

  lemma {:induction false} WalkPruned(n: LcNode, p: string)
    requires Pruned(n) && Walk(n, p).Some?
    ensures Pruned(Walk(n, p).value) && (p != [] ==> Live(Walk(n, p).value))
    decreases |p|
  {
    if p != [] {
      WalkPruned(n.children[p[0]], p[1..]);
    }
  }

  /** Every live child adds at least one match. */
  lemma {:induction false} DfsGrows(n: LcNode, running: string, prev: multiset<string>)
    requires Pruned(n)
    ensures |Dfs(n, running, prev).1| >= |prev| + (if Live(n) then 1 else 0)
    decreases n, 1
  {
    var acc := if n.end then prev + multiset{running} else prev;
    ChildrenGrows(n, running, n.children.Keys, running, acc);
    if n.children != map[] {
      var c :| c in n.children;
      assert c in n.children.Keys;
    }
  }

  lemma {:induction false} ChildrenGrows(n: LcNode, running: string, keys: set<char>, prefix: string, prev: multiset<string>)
    requires keys <= n.children.Keys && Pruned(n)
    ensures |Children(n, running, keys, prefix, prev).1| >= |prev| + |keys|
    decreases n, 0, keys
  {
    if keys != {} {
      var c := Least(keys);
      DfsGrows(n.children[c], running + [c], prev);
      var child := Dfs(n.children[c], running + [c], prev);
      ChildrenGrows(n, running, keys - {c}, child.0, child.1);
      assert keys == (keys - {c}) + {c};
    }
  }

  /** In a pruned tree, when the traversal finds exactly one match, the
      prefix it returns is that match. */
  lemma {:induction false} SingleMatch(n: LcNode, running: string, prev: multiset<string>)
    requires Pruned(n)
    requires |Dfs(n, running, prev).1| == |prev| + 1
    ensures Dfs(n, running, prev).1 == prev + multiset{Dfs(n, running, prev).0}
    decreases n
  {
    var keys := n.children.Keys;
    var acc := if n.end then prev + multiset{running} else prev;
    ChildrenGrows(n, running, keys, running, acc);
    if n.end {
      assert keys == {};
    } else {
      assert keys != {};
      assert |keys| == 1;
      var c := Least(keys);
      assert keys == (keys - {c}) + {c};
      assert keys - {c} == {};
      assert |n.children| == 1;
      DfsGrows(n.children[c], running + [c], prev);
      SingleMatch(n.children[c], running + [c], prev);
    }
  }

  /** A node that is not terminal and has exactly one child passes the
      search on to that child: the prefix and the matches are the child's. */
  lemma DfsSingleChild(n: LcNode, running: string, prev: multiset<string>)
    requires !n.end && |n.children| == 1
    ensures var c := Least(n.children.Keys);
      Dfs(n, running, prev) == Dfs(n.children[c], running + [c], prev)
  {
    var keys := n.children.Keys;
    var c := Least(keys);
    assert keys - {c} == {} by {
      assert keys == (keys - {c}) + {c};
    }
    var child := Dfs(n.children[c], running + [c], prev);
    assert Children(n, running, keys, running, prev) == Children(n, running, keys - {c}, child.0, child.1);
    assert Children(n, running, keys - {c}, child.0, child.1) == child;
  }

  /** Every child of a node in a pruned tree leads to a match of the search. */
  lemma ChildMatch(n: LcNode, running: string, prev: multiset<string>, c: char) returns (m: string)
    requires Pruned(n) && c in n.children
    ensures running + [c] <= m && Dfs(n, running, prev).1[m] > prev[m]
  {
    var w := LiveAcceptsSome(n.children[c]);
    m := running + [c] + w;
    assert m[|running|..] == [c] + w && ([c] + w)[1..] == w;
    assert Accepts(n, m[|running|..]);
  }

  /** `q` starts every word of `m`. */
  predicate StartsAll(q: string, m: multiset<string>) {
    forall w :: w in m ==> q <= w
  }

  /** In a pruned tree the prefix the search returns is the longest string
      that extends `running` and starts every match it adds: it extends
      through single-child nodes and stops only at a node that is terminal
      or branches. */
  lemma {:induction false} DfsLongest(n: LcNode, running: string, prev: multiset<string>, q: string)
    requires Pruned(n) && Live(n) && running <= q
    requires forall w :: Dfs(n, running, prev).1[w] > prev[w] ==> q <= w
    ensures q <= Dfs(n, running, prev).0
    decreases n
  {
    if n.end || |n.children| != 1 {
      StopsAtFork(n, running, prev, q);
    } else {
      var c := Least(n.children.Keys);
      if |q| > |running| {
        var m1 := ChildMatch(n, running, prev, c);
        assert q <= m1;
        assert q[..|running| + 1] == running + [c];
        DfsSingleChild(n, running, prev);
        DfsLongest(n.children[c], running + [c], prev, q);
      } else {
        assert q == running;
      }
    }
  }

  /** At a terminal or branching node no string longer than `running`
      starts every match. */
  lemma StopsAtFork(n: LcNode, running: string, prev: multiset<string>, q: string)
    requires Pruned(n) && Live(n) && running <= q && (n.end || |n.children| != 1)
    requires forall w :: Dfs(n, running, prev).1[w] > prev[w] ==> q <= w
    ensures q == running
  {
    if n.end {
      assert running[|running|..] == [];
      assert Dfs(n, running, prev).1[running] > prev[running];
    } else {
      var c1 :| c1 in n.children.Keys;
      assert |n.children.Keys - {c1}| == |n.children.Keys| - 1 >= 1;
      var c2 :| c2 in n.children.Keys - {c1};
      var m1 := ChildMatch(n, running, prev, c1);
      var m2 := ChildMatch(n, running, prev, c2);
      assert q <= m1 && q <= m2;
      assert m1[|running|] == c1 && m2[|running|] == c2;
      assert |q| <= |running|;
    }
  }

  /** The matches in some order. The source collects them in Go's map
      iteration order, which is unspecified: any order may come out. */
  method Enumerate(m: multiset<string>) returns (s: seq<string>)
    ensures multiset(s) == m
  {
    s := [];
    var rest := m;
    while rest != multiset{}
      invariant multiset(s) + rest == m
      decreases |rest|
    {
      var x :| x in rest;
      s := s + [x];
      rest := rest - multiset{x};
    }
  }

  /** What Complete finds for `input`: the prefix and the matches. */
  function Completion(lc: ListCompleter, input: string): (string, multiset<string>) {
    match Walk(lc.head, input)
    case None => ("", multiset{})
    case Some(n) => Dfs(n, input, multiset{})
  }

  /** A completer as NewListCompleter builds it: its fields are private to
      the package, so no other completer of this kind exists. */
  predicate Valid(lc: ListCompleter) {
    lc.head == Build(lc.list)
  }

  /** The input leads to a node that is terminal or branches. */
  predicate Lands(lc: ListCompleter, input: string) {
    Walk(lc.head, input).Some? &&
    (Walk(lc.head, input).value.end || |Walk(lc.head, input).value.children| != 1)
  }

  /** What a completion promises: the matches are exactly the list words
      that start with the input, each once; a missing edge gives nothing;
      the prefix starts with the input and starts every match, is the match
      itself when there is only one, and is the input itself when the node
      reached is terminal or branches. */
  lemma CompletionMeetsSpec(lc: ListCompleter, input: string)
    requires Valid(lc)
    ensures var (p, m) := Completion(lc, input);
      (forall w :: m[w] == if input <= w && w in lc.list then 1 else 0) &&
      (Walk(lc.head, input) == None ==> p == "" && m == multiset{}) &&
      (m == multiset{} ==> p == "") &&
      (m != multiset{} ==> input <= p && forall w :: w in m ==> p <= w) &&
      (|m| == 1 ==> m == multiset{p}) &&
      (Lands(lc, input) ==> p == input) &&
      (m != multiset{} ==> forall q :: input <= q && StartsAll(q, m) ==> q <= p)
  {
    var (p, m) := Completion(lc, input);
    forall w ensures m[w] == if input <= w && w in lc.list then 1 else 0 {
      if input <= w {
        WalkAccepts(lc.head, input, w);
        BuildAccepts(lc.list, w);
      }
    }
    if Walk(lc.head, input).Some? {
      var n := Walk(lc.head, input).value;
      BuildPruned(lc.list);
      WalkPruned(lc.head, input);
      DfsGrows(n, input, multiset{});
      if |m| == 1 {
        SingleMatch(n, input, multiset{});
      }
      if m != multiset{} {
        var w :| w in m;
        assert Accepts(n, w[|input|..]);
        forall q | input <= q && StartsAll(q, m) ensures q <= p {
          DfsLongest(n, input, multiset{}, q);
        }
      }
    }
  }

  /** For the words "jane" and "jack", completing "j" offers both and
      extends the line to their longest common prefix "ja". */
  lemma CompleteJaneJack()
    ensures var list := ["jane", "jack"];
      Completion(ListCompleter(Build(list), list), "j") == ("ja", multiset{"jane", "jack"})
  {
    var list := ["jane", "jack"];
    JaneJack(ListCompleter(Build(list), list));
  }

  lemma JaneJack(lc: ListCompleter)
    requires Valid(lc) && lc.list == ["jane", "jack"]
    ensures Completion(lc, "j") == ("ja", multiset{"jane", "jack"})
  {
    CompletionMeetsSpec(lc, "j");
    var r := Completion(lc, "j");
    JaneJackMatches(lc.list, r.1);
    JaneJackPrefix(r.0, r.1);
  }

  lemma JaneJackMatches(list: seq<string>, m: multiset<string>)
    requires list == ["jane", "jack"]
    requires forall w :: m[w] == if "j" <= w && w in list then 1 else 0
    ensures m == multiset{"jane", "jack"}
  {
    assert "j" <= "jane" && "j" <= "jack";
    forall w ensures m[w] == multiset{"jane", "jack"}[w] {
      assert w in list <==> w == "jane" || w == "jack";
    }
  }

  lemma JaneJackPrefix(p: string, m: multiset<string>)
    requires m == multiset{"jane", "jack"}
    requires forall w :: w in m ==> p <= w
    requires forall q :: "j" <= q && StartsAll(q, m) ==> q <= p
    ensures p == "ja"
  {
    assert StartsAll("ja", m);
    assert "ja" <= p && p <= "jane" && p <= "jack";
    assert "jane"[2] == 'n' && "jack"[2] == 'c';
    assert |p| <= 2;
  }

  /** With an empty input every distinct list word is offered, and an empty
      list offers nothing. */
  lemma CompleteEmptyInput(lc: ListCompleter)
    requires Valid(lc)
    ensures forall w :: Completion(lc, "").1[w] == if w in lc.list then 1 else 0
    ensures lc.list == [] ==> Completion(lc, "") == ("", multiset{})
  {
    CompletionMeetsSpec(lc, "");
    if lc.list == [] {
      var m := Completion(lc, "").1;
      assert forall w :: m[w] == 0;
      assert m == multiset{};
    }
  }

  /** listCompleter.Complete: walk the input one rune per edge; on a missing
      edge return ("", []); otherwise collect the matches below the node
      reached, with the unambiguous prefix. The matches come out in some
      order, as Go's map iteration gives them. */
  method Complete(lc: ListCompleter, input: string) returns (prefix: string, recs: seq<string>)
    requires Valid(lc)
    ensures prefix == Completion(lc, input).0 && multiset(recs) == Completion(lc, input).1
    ensures forall w :: multiset(recs)[w] == if input <= w && w in lc.list then 1 else 0
    ensures Walk(lc.head, input) == None ==> prefix == "" && recs == []
    ensures recs == [] ==> prefix == ""
    ensures recs != [] ==> input <= prefix && forall i :: 0 <= i < |recs| ==> prefix <= recs[i]
    ensures |recs| == 1 ==> prefix == recs[0]
    ensures recs != [] ==> forall q :: input <= q && StartsAll(q, multiset(recs)) ==> q <= prefix
  {
    var n := lc.head;
    var i := 0;
    while i < |input|
      invariant 0 <= i <= |input| && Walk(lc.head, input[..i]) == Some(n)
    {
      WalkAppend(lc.head, input[..i], input[i]);
      assert input[..i + 1] == input[..i] + [input[i]];
      if input[i] !in n.children {
        WalkNoneExtends(lc.head, input[..i + 1], input);
        CompletionMeetsSpec(lc, input);
        return "", [];
      }
      n := n.children[input[i]];
      i := i + 1;
    }
    assert input[..i] == input;
    var found := Dfs(n, input, multiset{});
    prefix := found.0;
    recs := Enumerate(found.1);
    CompletionMeetsSpec(lc, input);
    if |recs| == 1 {
      assert recs == [recs[0]];
      assert multiset(recs) == multiset{recs[0]};
    }
    forall k | 0 <= k < |recs| ensures prefix <= recs[k] {
      assert recs[k] in multiset(recs);
    }
  }
}
