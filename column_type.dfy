/**
 * Column-type classification of KnowledgeGraphManager.find_column_type.
 *
 * Every node of the knowledge graph may carry a `pattern` attribute: a
 * collection of regular expressions. A column name is lowercased and searched
 * with every pattern of every node; each successful search appends the node to
 * a match list, which is then stably sorted by the length of the node's
 * longest pattern, longest first. The head of the sorted list is the answer.
 */
module ColumnType {
  import opened Outcomes

  /** A node as the graph yields it with its attributes: its identifier and
      its `pattern` attribute, `None` when the node has no such attribute. */
  datatype Node = Node(id: string, pattern: Option<seq<string>>)

  /** A regular-expression search `re.search(pattern, subject)`: true when the
      pattern is found somewhere in the subject. The regex engine itself is a
      parameter of the model. */
  type Search = (string, string) -> bool

  /** Lowercase mapping of one character (ASCII letters only). */
  function LowerChar(c: char): char
  {
    if 'A' <= c <= 'Z' then (c as int + 32) as char else c
  }

  /** The lowercased column name. */
  function Lower(s: string): string
  {
    seq(|s|, i requires 0 <= i < |s| => LowerChar(s[i]))
  }

  lemma LowerIdempotent(s: string)
    ensures Lower(Lower(s)) == Lower(s)
  {
  }

  /** The patterns of a node; a missing attribute contributes none. */
  function Patterns(n: Node): seq<string>
  {
    if n.pattern.Some? then n.pattern.value else []
  }

  /** `attrs.get('pattern')` is truthy: present and non-empty. */
  predicate HasPatterns(n: Node)
  {
    |Patterns(n)| > 0
  }

  /** Some pattern of `n` is found in `subject`. */
  predicate Matches(n: Node, subject: string, search: Search)
  {
    exists p :: p in Patterns(n) && search(p, subject)
  }

  /** Length of the longest string of `ps` (0 when there is none). */
  function Longest(ps: seq<string>): nat
  {
    if ps == [] then 0
    else
      var m := Longest(ps[..|ps| - 1]);
      var l := |ps[|ps| - 1]|;
      if l > m then l else m
  }

  /** `max(len(p) for p in ps)`: Longest bounds every pattern and is the
      length of one of them. */
  lemma {:induction false} LongestIsMax(ps: seq<string>)
    ensures forall p :: p in ps ==> |p| <= Longest(ps)
    ensures ps != [] ==> exists p :: p in ps && |p| == Longest(ps)
  {
    if ps != [] {
      var init := ps[..|ps| - 1];
      assert ps == init + [ps[|ps| - 1]];
      LongestIsMax(init);
    }
  }

  /** The sort key: the length of the node's longest pattern. */
  function Key(n: Node): nat
  {
    Longest(Patterns(n))
  }

  /** The entries appended for node `n` while its patterns `ps` are scanned:
      one copy of `n` per pattern found in `subject`. */
  function Copies(n: Node, ps: seq<string>, subject: string, search: Search): seq<Node>
  {
    if ps == [] then []
    else Copies(n, ps[..|ps| - 1], subject, search) + (if search(ps[|ps| - 1], subject) then [n] else [])
  }

  /** The scan of one node's patterns appends nothing but that node, and
      appends it at least once exactly when one of its patterns is found. */
  lemma {:induction false} CopiesOfNode(n: Node, ps: seq<string>, subject: string, search: Search)
    ensures forall x :: x in Copies(n, ps, subject, search) ==> x == n
    ensures Copies(n, ps, subject, search) != [] <==> exists p :: p in ps && search(p, subject)
  {
    if ps != [] {
      var init := ps[..|ps| - 1];
      assert ps == init + [ps[|ps| - 1]];
      CopiesOfNode(n, init, subject, search);
    }
  }

  /** One more pattern scanned appends at most one more copy. */
  lemma CopiesSnoc(n: Node, ps: seq<string>, j: int, subject: string, search: Search)
    requires 0 <= j < |ps|
    ensures Copies(n, ps[..j + 1], subject, search) ==
            Copies(n, ps[..j], subject, search) + (if search(ps[j], subject) then [n] else [])
  {
    assert ps[..j + 1][..j] == ps[..j];
  }

  /** One more node scanned appends its copies. */
  lemma MatchListSnoc(nodes: seq<Node>, i: int, subject: string, search: Search)
    requires 0 <= i < |nodes|
    ensures MatchList(nodes[..i + 1], subject, search) ==
            MatchList(nodes[..i], subject, search) + Copies(nodes[i], Patterns(nodes[i]), subject, search)
  {
    assert nodes[..i + 1][..i] == nodes[..i];
  }

  /** The match list the scan builds, node by node in iteration order. */
  function MatchList(nodes: seq<Node>, subject: string, search: Search): seq<Node>
  {
    if nodes == [] then []
    else
      var last := nodes[|nodes| - 1];
      MatchList(nodes[..|nodes| - 1], subject, search) + Copies(last, Patterns(last), subject, search)
  }

  predicate SortedDesc(s: seq<Node>)
  {
    forall i, j :: 0 <= i < j < |s| ==> Key(s[i]) >= Key(s[j])
  }

  /** Inserts `x` after every entry whose key is at least its own, so that
      entries with equal keys keep their order. */
  function Insert(x: Node, s: seq<Node>): (r: seq<Node>)
    ensures multiset(r) == multiset(s) + multiset{x}
  {
    if s == [] then [x]
    else if Key(s[0]) >= Key(x) then
      assert s == [s[0]] + s[1..];
      [s[0]] + Insert(x, s[1..])
    else [x] + s
  }

  /** No entry of `s` has a key above `k`. */
  predicate KeysAtMost(s: seq<Node>, k: nat)
  {
    forall i :: 0 <= i < |s| ==> Key(s[i]) <= k
  }

  lemma {:induction false} InsertKeysAtMost(x: Node, s: seq<Node>, k: nat)
    requires KeysAtMost(s, k) && Key(x) <= k
    ensures KeysAtMost(Insert(x, s), k)
  {
    if s != [] && Key(s[0]) >= Key(x) {
      var r := Insert(x, s[1..]);
      InsertKeysAtMost(x, s[1..], k);
      var out := [s[0]] + r;
      assert Insert(x, s) == out;
      forall i | 0 <= i < |out| ensures Key(out[i]) <= k {
        if i > 0 {
          assert out[i] == r[i - 1];
        }
      }
    }
  }

  lemma {:induction false} InsertSorted(x: Node, s: seq<Node>)
    requires SortedDesc(s)
    ensures SortedDesc(Insert(x, s))
  {
    if s != [] && Key(s[0]) >= Key(x) {
      var t := s[1..];
      InsertSorted(x, t);
      assert KeysAtMost(t, Key(s[0]));
      InsertKeysAtMost(x, t, Key(s[0]));
      var r := Insert(x, t);
      var out := [s[0]] + r;
      assert Insert(x, s) == out;
      forall i, j | 0 <= i < j < |out| ensures Key(out[i]) >= Key(out[j]) {
        assert out[j] == r[j - 1];
        if i > 0 {
          assert out[i] == r[i - 1];
        }
      }
    }
  }

  /** `list.sort(key=Key, reverse=True)`: a stable sort, longest key first. */
  function SortDesc(l: seq<Node>): seq<Node>
  {
    if l == [] then [] else Insert(l[|l| - 1], SortDesc(l[..|l| - 1]))
  }

  /** The sort orders the match list by key, longest first, and keeps every
      entry with its multiplicity. */
  lemma {:induction false} SortDescSortedPermutation(l: seq<Node>)
    ensures SortedDesc(SortDesc(l))
    ensures multiset(SortDesc(l)) == multiset(l)
  {
    if l != [] {
      var init := l[..|l| - 1];
      assert l == init + [l[|l| - 1]];
      SortDescSortedPermutation(init);
      InsertSorted(l[|l| - 1], SortDesc(init));
    }
  }

  function Head(s: seq<Node>): Option<Node>
  {
    if s == [] then None else Some(s[0])
  }

  /** The winner after `x` is seen, given the winner so far: `x` replaces it
      only with a strictly longer key. */
  function Pick(best: Option<Node>, x: Node): Option<Node>
  {
    match best
    case None => Some(x)
    case Some(b) => if Key(b) >= Key(x) then best else Some(x)
  }

  /** Reference definition: the first node in iteration order that matches
      `subject` and whose longest pattern is longest among the matching nodes. */
  function Best(nodes: seq<Node>, subject: string, search: Search): Option<Node>
  {
    if nodes == [] then None
    else
      var b := Best(nodes[..|nodes| - 1], subject, search);
      var last := nodes[|nodes| - 1];
      if Matches(last, subject, search) then Pick(b, last) else b
  }

  /** The value `find_column_type` returns: the head of the sorted match list,
      `None` standing for `(None, None)`. */
  function ColumnTypeOf(nodes: seq<Node>, columnName: string, search: Search): Option<Node>
  {
    Head(SortDesc(MatchList(nodes, Lower(columnName), search)))
  }

  /** Appending one entry to the list being sorted changes its head as Pick says. */
  lemma {:induction false} SortHeadSnoc(l: seq<Node>, x: Node)
    ensures Head(SortDesc(l + [x])) == Pick(Head(SortDesc(l)), x)
  {
    var l' := l + [x];
    assert l'[..|l'| - 1] == l;
    var s := SortDesc(l);
    if s != [] {
      assert s == [s[0]] + s[1..];
    }
  }

  /** A node seen twice in a row is picked as if seen once. */
  lemma PickTwice(best: Option<Node>, x: Node)
    ensures Pick(Pick(best, x), x) == Pick(best, x)
  {
  }

  /** The entry a left-to-right scan with Pick keeps: the first entry with
      the greatest key. */
  function Winner(l: seq<Node>): Option<Node>
  {
    if l == [] then None else Pick(Winner(l[..|l| - 1]), l[|l| - 1])
  }

  /** The head of the stably sorted list is the scan's winner. */
  lemma {:induction false} SortHeadIsWinner(l: seq<Node>)
    ensures Head(SortDesc(l)) == Winner(l)
  {
    if l != [] {
      var init := l[..|l| - 1];
      assert l == init + [l[|l| - 1]];
      SortHeadIsWinner(init);
      SortHeadSnoc(init, l[|l| - 1]);
    }
  }

  lemma WinnerSnoc(l: seq<Node>, x: Node)
    ensures Winner(l + [x]) == Pick(Winner(l), x)
  {
    assert (l + [x])[..|l|] == l;
  }

  /** Appending all the copies of one node changes the winner as one Pick
      does: duplicate entries for a node never change the winner. */
  lemma {:induction false} WinnerAppendCopies(l: seq<Node>, n: Node, ps: seq<string>, subject: string, search: Search)
    ensures Winner(l + Copies(n, ps, subject, search)) ==
            if Copies(n, ps, subject, search) != [] then Pick(Winner(l), n) else Winner(l)
  {
    var all := Copies(n, ps, subject, search);
    if ps == [] {
      assert l + all == l;
    } else {
      var init := ps[..|ps| - 1];
      var c := Copies(n, init, subject, search);
      WinnerAppendCopies(l, n, init, subject, search);
      if search(ps[|ps| - 1], subject) {
        assert l + all == (l + c) + [n];
        WinnerSnoc(l + c, n);
        PickTwice(Winner(l), n);
      } else {
        assert all == c;
      }
    }
  }

  /** The head of the stably sorted match list is the reference winner. */
  lemma {:induction false} SortedMatchListHead(nodes: seq<Node>, subject: string, search: Search)
    ensures Head(SortDesc(MatchList(nodes, subject, search))) == Best(nodes, subject, search)
  {
    SortHeadIsWinner(MatchList(nodes, subject, search));
    WinnerOfMatchList(nodes, subject, search);
  }

  lemma {:induction false} WinnerOfMatchList(nodes: seq<Node>, subject: string, search: Search)
    ensures Winner(MatchList(nodes, subject, search)) == Best(nodes, subject, search)
  {
    if nodes != [] {
      var init := nodes[..|nodes| - 1];
      var last := nodes[|nodes| - 1];
      WinnerOfMatchList(init, subject, search);
      WinnerAppendCopies(MatchList(init, subject, search), last, Patterns(last), subject, search);
      CopiesOfNode(last, Patterns(last), subject, search);
      assert Copies(last, Patterns(last), subject, search) != [] <==> Matches(last, subject, search);
    }
  }

  /** `nodes[k]` is a matching node whose key is the greatest among the
      matching nodes and strictly greater than that of every matching node
      before position `k`. */
  predicate FirstLongestAt(nodes: seq<Node>, k: int, subject: string, search: Search)
  {
    && 0 <= k < |nodes|
    && Matches(nodes[k], subject, search)
    && (forall j :: 0 <= j < |nodes| && Matches(nodes[j], subject, search) ==> Key(nodes[j]) <= Key(nodes[k]))
    && (forall j :: 0 <= j < k && Matches(nodes[j], subject, search) ==> Key(nodes[j]) < Key(nodes[k]))
  }

  /** Appending a node keeps a first-longest position when the new node does
      not beat it. */
  lemma KeepFirstLongest(nodes: seq<Node>, x: Node, k: int, subject: string, search: Search)
    requires FirstLongestAt(nodes, k, subject, search)
    requires Matches(x, subject, search) ==> Key(x) <= Key(nodes[k])
    ensures FirstLongestAt(nodes + [x], k, subject, search)
  {
    var all := nodes + [x];
    assert forall j :: 0 <= j < |nodes| ==> all[j] == nodes[j];
  }

  /** A matching node appended after nodes that all have shorter keys, or that
      do not match, is first-longest. */
  lemma NewFirstLongest(nodes: seq<Node>, x: Node, subject: string, search: Search)
    requires Matches(x, subject, search)
    requires forall j :: 0 <= j < |nodes| && Matches(nodes[j], subject, search) ==> Key(nodes[j]) < Key(x)
    ensures FirstLongestAt(nodes + [x], |nodes|, subject, search)
  {
    var all := nodes + [x];
    assert forall j :: 0 <= j < |nodes| ==> all[j] == nodes[j];
  }

  /** The reference winner is absent exactly when nothing matches; otherwise it
      sits at a first-longest position. */
  lemma {:induction false} BestIsFirstLongest(nodes: seq<Node>, subject: string, search: Search)
    ensures Best(nodes, subject, search).None? <==>
            forall i :: 0 <= i < |nodes| ==> !Matches(nodes[i], subject, search)
    ensures Best(nodes, subject, search).Some? ==>
            exists k :: FirstLongestAt(nodes, k, subject, search) && nodes[k] == Best(nodes, subject, search).value
  {
    if nodes != [] {
      var init := nodes[..|nodes| - 1];
      var last := nodes[|nodes| - 1];
      assert nodes == init + [last];
      BestIsFirstLongest(init, subject, search);
      var prev := Best(init, subject, search);
      if prev.Some? {
        var k :| FirstLongestAt(init, k, subject, search) && init[k] == prev.value;
        if Matches(last, subject, search) && Key(prev.value) < Key(last) {
          NewFirstLongest(init, last, subject, search);
        } else {
          KeepFirstLongest(init, last, k, subject, search);
        }
      } else if Matches(last, subject, search) {
        NewFirstLongest(init, last, subject, search);
      }
    }
  }

  /** `(None, None)` is returned exactly when no pattern of any node is found
      in the lowercased column name. */
  lemma NoneIffNoPatternMatches(nodes: seq<Node>, columnName: string, search: Search)
    ensures ColumnTypeOf(nodes, columnName, search).None? <==>
            forall i :: 0 <= i < |nodes| ==> !Matches(nodes[i], Lower(columnName), search)
  {
    SortedMatchListHead(nodes, Lower(columnName), search);
    BestIsFirstLongest(nodes, Lower(columnName), search);
  }

  /** The returned node is a node of the graph with a non-empty pattern
      collection, one of whose patterns is found in the lowercased column name;
      its longest pattern is at least as long as that of every matching node,
      and strictly longer than that of every matching node before it. */
  lemma ResultIsFirstLongestMatch(nodes: seq<Node>, columnName: string, search: Search)
    ensures ColumnTypeOf(nodes, columnName, search).Some? ==>
            HasPatterns(ColumnTypeOf(nodes, columnName, search).value) &&
            exists k :: FirstLongestAt(nodes, k, Lower(columnName), search) &&
                        nodes[k] == ColumnTypeOf(nodes, columnName, search).value
  {
    SortedMatchListHead(nodes, Lower(columnName), search);
    BestIsFirstLongest(nodes, Lower(columnName), search);
  }

  /** The column name only matters through its lowercase form. */
  lemma LowercaseInvariant(nodes: seq<Node>, columnName: string, search: Search)
    ensures ColumnTypeOf(nodes, Lower(columnName), search) == ColumnTypeOf(nodes, columnName, search)
  {
    LowerIdempotent(columnName);
  }

  /** The sort keys of the two nodes of the examples below. */
  lemma ExampleKeys()
    ensures Key(Node("A", Some(["id$"]))) == 3
    ensures Key(Node("B", Some(["^cust_id$"]))) == 9
  {
    assert ["id$"][..0] == [];
    assert ["^cust_id$"][..0] == [];
  }

  /** Two nodes whose patterns both match `cust_id`: the node with the longer
      pattern wins. */
  lemma CustIdExample(search: Search)
    requires search("id$", "cust_id") && search("^cust_id$", "cust_id")
    ensures ColumnTypeOf([Node("A", Some(["id$"])), Node("B", Some(["^cust_id$"]))], "cust_id", search)
            == Some(Node("B", Some(["^cust_id$"])))
  {
    var a := Node("A", Some(["id$"]));
    var b := Node("B", Some(["^cust_id$"]));
    var nodes := [a, b];
    assert Lower("cust_id") == "cust_id";
    assert nodes[..1] == [a] && [a][..0] == [];
    assert "id$" in Patterns(a) && "^cust_id$" in Patterns(b);
    assert Best([a], "cust_id", search) == Some(a);
    ExampleKeys();
    assert Best(nodes, "cust_id", search) == Some(b);
    SortedMatchListHead(nodes, "cust_id", search);
  }

  /** A column name that no pattern matches gives `(None, None)`. */
  lemma NoMatchExample(search: Search)
    requires !search("id$", "zzz") && !search("^cust_id$", "zzz")
    ensures ColumnTypeOf([Node("A", Some(["id$"])), Node("B", Some(["^cust_id$"]))], "zzz", search) == None
  {
    var a := Node("A", Some(["id$"]));
    var b := Node("B", Some(["^cust_id$"]));
    var nodes := [a, b];
    assert Lower("zzz") == "zzz";
    assert nodes[..1] == [a] && [a][..0] == [];
    assert Patterns(a) == ["id$"] && Patterns(b) == ["^cust_id$"];
    assert !Matches(a, "zzz", search) && !Matches(b, "zzz", search);
    assert Best([a], "zzz", search) == None;
    assert Best(nodes, "zzz", search) == None;
    SortedMatchListHead(nodes, "zzz", search);
  }

  /** The scan of find_column_type: every node in iteration order, every
      pattern of a node whose `pattern` attribute is truthy, one entry appended
      per pattern found in `subject`. */
  method CollectMatches(nodes: seq<Node>, subject: string, search: Search) returns (matches: seq<Node>)
    ensures matches == MatchList(nodes, subject, search)
  {
    matches := [];
    var i := 0;
    while i < |nodes|
      invariant 0 <= i <= |nodes|
      invariant matches == MatchList(nodes[..i], subject, search)
    {
      var node := nodes[i];
      var ps := Patterns(node);
      var j := 0;
      if |ps| > 0 {
        while j < |ps|
          invariant 0 <= j <= |ps|
          invariant matches == MatchList(nodes[..i], subject, search) + Copies(node, ps[..j], subject, search)
        {
          CopiesSnoc(node, ps, j, subject, search);
          if search(ps[j], subject) {
            matches := matches + [node];
          }
          j := j + 1;
        }
      }
      assert ps[..j] == ps;
      MatchListSnoc(nodes, i, subject, search);
      i := i + 1;
    }
    assert nodes[..i] == nodes;
  }

  /** find_column_type: collects the matches for the lowercased column name,
      sorts them stably by longest pattern, longest first, and returns the
      first, if any. */
  method FindColumnType(nodes: seq<Node>, columnName: string, search: Search) returns (r: Option<Node>)
    ensures r == ColumnTypeOf(nodes, columnName, search)
    ensures r.None? <==> forall i :: 0 <= i < |nodes| ==> !Matches(nodes[i], Lower(columnName), search)
    ensures r.Some? ==> HasPatterns(r.value)
    ensures r.Some? ==> exists k :: FirstLongestAt(nodes, k, Lower(columnName), search) && nodes[k] == r.value
  {
    var matches := CollectMatches(nodes, Lower(columnName), search);
    if |matches| > 0 {
      matches := SortDesc(matches);
      r := Some(matches[0]);
    } else {
      r := None;
    }
    NoneIffNoPatternMatches(nodes, columnName, search);
    ResultIsFirstLongestMatch(nodes, columnName, search);
  }
}
