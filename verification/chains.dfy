/** Arrays of singly-linked chains, the shape shared by the menu (one dish list per category)
    and the stock hashtable (one chain per bucket). An array of chains is a `seq<seq<T>>`;
    a chain is listed from its head. */
module Chains {

  datatype Option<T> = None | Some(value: T)

  /** A node of an array of chains: chain `row`, `col` steps from its head. */
  datatype Pos = Pos(row: nat, col: nat)

  predicate ValidPos<T>(rows: seq<seq<T>>, p: Pos) {
    p.row < |rows| && p.col < |rows[p.row]|
  }

  function At<T>(rows: seq<seq<T>>, p: Pos): T
    requires ValidPos(rows, p)
  {
    rows[p.row][p.col]
  }

  /** `a` is reached before `b` by a scan in array-index-then-chain order. */
  predicate Before(a: Pos, b: Pos) {
    a.row < b.row || (a.row == b.row && a.col < b.col)
  }

  /** Two arrays of chains with the same number of chains and the same chain lengths. */
  predicate SameShape<T, U>(a: seq<seq<T>>, b: seq<seq<U>>) {
    |a| == |b| && forall i :: 0 <= i < |a| ==> |a[i]| == |b[i]|
  }

  /** Index of the first element of `chain` satisfying `p`, walking from the head. */
  function FindInChain<T>(chain: seq<T>, p: T -> bool): (r: Option<nat>)
    ensures r.Some? ==> r.value < |chain| && p(chain[r.value])
  {
    if |chain| == 0 then None
    else if p(chain[0]) then Some(0)
    else match FindInChain(chain[1..], p)
      case None => None
      case Some(j) => Some(j + 1)
  }

  /** The chain search finds nothing exactly when no element matches, and otherwise no
      element before the one it finds matches. */
  lemma {:induction false} FindInChainIsFirst<T>(chain: seq<T>, p: T -> bool)
    ensures FindInChain(chain, p).None? <==> forall j :: 0 <= j < |chain| ==> !p(chain[j])
    ensures FindInChain(chain, p).Some? ==> forall j :: 0 <= j < FindInChain(chain, p).value ==> !p(chain[j])
  {
    if |chain| > 0 && !p(chain[0]) {
      FindInChainIsFirst(chain[1..], p);
      assert forall j :: 1 <= j < |chain| ==> chain[j] == chain[1..][j - 1];
    }
  }

  /** The first node satisfying `p` in array-index-then-chain order, or None when no node
      does: the traversal of every lookup of the restaurant. */
  function FindFirst<T>(rows: seq<seq<T>>, p: T -> bool): (r: Option<Pos>)
    ensures r.Some? ==> ValidPos(rows, r.value)
  {
    if |rows| == 0 then None
    else match FindInChain(rows[0], p)
      case Some(j) => Some(Pos(0, j))
      case None =>
        match FindFirst(rows[1..], p)
        case None => None
        case Some(q) => Some(Pos(q.row + 1, q.col))
  }

  /** No node satisfies `p` exactly when the search finds nothing, and every node reached
      before the one it finds fails `p`. */
  predicate IsFirstMatch<T>(rows: seq<seq<T>>, p: T -> bool, r: Option<Pos>) {
    && (r.None? <==> forall i, j :: 0 <= i < |rows| && 0 <= j < |rows[i]| ==> !p(rows[i][j]))
    && (r.Some? ==> ValidPos(rows, r.value) && p(At(rows, r.value)))
    && (r.Some? ==>
          forall i, j :: 0 <= i < |rows| && 0 <= j < |rows[i]| && Before(Pos(i, j), r.value) ==>
            !p(rows[i][j]))
  }

  lemma {:induction false} FindFirstIsFirst<T>(rows: seq<seq<T>>, p: T -> bool)
    ensures IsFirstMatch(rows, p, FindFirst(rows, p))
  {
    if |rows| > 0 {
      FindInChainIsFirst(rows[0], p);
      FindFirstIsFirst(rows[1..], p);
      assert forall i, j :: 1 <= i < |rows| && 0 <= j < |rows[i]| ==> rows[i][j] == rows[1..][i - 1][j];
    }
  }

  /** A search result satisfying the first-match characterization is the search result. */
  lemma FirstMatchUnique<T>(rows: seq<seq<T>>, p: T -> bool, r: Option<Pos>)
    requires IsFirstMatch(rows, p, r)
    ensures FindFirst(rows, p) == r
  {
    FindFirstIsFirst(rows, p);
  }

  /** The first match is determined by which nodes match: two arrays of the same shape on
      which `p` and `p'` agree node by node have the same first match. */
  lemma FindFirstAgrees<T, U>(a: seq<seq<T>>, p: T -> bool, b: seq<seq<U>>, p': U -> bool)
    requires SameShape(a, b)
    requires forall i, j :: 0 <= i < |a| && 0 <= j < |a[i]| ==> p(a[i][j]) == p'(b[i][j])
    ensures FindFirst(a, p) == FindFirst(b, p')
  {
    FindFirstIsFirst(b, p');
    var r := FindFirst(b, p');
    if r.Some? {
      assert p(a[r.value.row][r.value.col]);
    }
    assert IsFirstMatch(a, p, r);
    FirstMatchUnique(a, p, r);
  }

  /** A node that is the only one satisfying `p` is what the search finds. */
  lemma FindFirstOnly<T>(rows: seq<seq<T>>, p: T -> bool, q: Pos)
    requires ValidPos(rows, q) && p(At(rows, q))
    requires forall i, j :: 0 <= i < |rows| && 0 <= j < |rows[i]| && p(rows[i][j]) ==> Pos(i, j) == q
    ensures FindFirst(rows, p) == Some(q)
  {
    FindFirstIsFirst(rows, p);
  }

  /** Number of nodes in all chains. */
  function Count<T>(rows: seq<seq<T>>): nat {
    if |rows| == 0 then 0 else |rows[0]| + Count(rows[1..])
  }

  /** Number of nodes in the chains before chain `i`. */
  function Offset<T>(rows: seq<seq<T>>, i: nat): nat
    requires i <= |rows|
  {
    if i == 0 then 0 else |rows[0]| + Offset(rows[1..], i - 1)
  }

  /** All nodes, chains in array order and each chain from its head. */
  function Flatten<T>(rows: seq<seq<T>>): (r: seq<T>)
    ensures |r| == Count(rows)
  {
    if |rows| == 0 then [] else rows[0] + Flatten(rows[1..])
  }

  /** Node `j` of chain `i` sits at index `Offset(rows, i) + j` of the flattened sequence. */
  lemma {:induction false} FlattenAt<T>(rows: seq<seq<T>>, i: nat, j: nat)
    requires i < |rows| && j < |rows[i]|
    ensures Offset(rows, i) + j < |Flatten(rows)|
    ensures Flatten(rows)[Offset(rows, i) + j] == rows[i][j]
  {
    if i == 0 {
    } else {
      FlattenAt(rows[1..], i - 1, j);
    }
  }

  /** The node sitting at index `k` of the flattened sequence: with `FlattenAt` and
      `FlattenIndexInjective`, flattening is a bijection between nodes and indices. */
  function Locate<T>(rows: seq<seq<T>>, k: nat): (p: Pos)
    requires k < Count(rows)
    ensures ValidPos(rows, p) && Offset(rows, p.row) + p.col == k
  {
    if k < |rows[0]| then Pos(0, k)
    else
      var q := Locate(rows[1..], k - |rows[0]|);
      Pos(q.row + 1, q.col)
  }

  /** Later chains start after the whole of every earlier chain. */
  lemma {:induction false} OffsetGrows<T>(rows: seq<seq<T>>, i: nat, k: nat)
    requires i < k <= |rows|
    ensures Offset(rows, i) + |rows[i]| <= Offset(rows, k)
  {
    if i == 0 {
      if k > 1 {
        OffsetGrows(rows[1..], 0, k - 1);
      }
    } else {
      OffsetGrows(rows[1..], i - 1, k - 1);
    }
  }

  /** Distinct nodes land at distinct indices of the flattened sequence; with
      `|Flatten(rows)| == Count(rows)` this makes flattening list every node exactly once. */
  lemma FlattenIndexInjective<T>(rows: seq<seq<T>>, i: nat, j: nat, i': nat, j': nat)
    requires i < |rows| && j < |rows[i]|
    requires i' < |rows| && j' < |rows[i']|
    requires Offset(rows, i) + j == Offset(rows, i') + j'
    ensures i == i' && j == j'
  {
    if i < i' {
      OffsetGrows(rows, i, i');
    } else if i' < i {
      OffsetGrows(rows, i', i);
    }
  }

  /** `s` in reverse order: what repeated insertion at the head of a chain produces. */
  function Reverse<T>(s: seq<T>): (r: seq<T>)
    ensures |r| == |s|
    ensures forall i :: 0 <= i < |s| ==> r[i] == s[|s| - 1 - i]
  {
    if |s| == 0 then [] else [s[|s| - 1]] + Reverse(s[..|s| - 1])
  }

  /** `s` scanned cyclically from index `k`: `s[k..]` and then `s[..k]`; every element once. */
  function Cycle<T>(s: seq<T>, k: nat): (c: seq<T>)
    requires k <= |s|
    ensures |c| == |s| && multiset(c) == multiset(s)
    ensures forall j :: 0 <= j < |s| - k ==> c[j] == s[k + j]
    ensures forall j :: |s| - k <= j < |s| ==> c[j] == s[j - (|s| - k)]
  {
    assert s == s[..k] + s[k..];
    s[k..] + s[..k]
  }

  lemma ReverseCons<T>(x: T, s: seq<T>)
    ensures Reverse([x] + s) == Reverse(s) + [x]
  {
  }
}
