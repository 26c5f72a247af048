/** The set of phone numbers stored as a fixed-depth decimal digit tree: the number with
    digits d1 .. d9 is present when the path d1 .. d9 from the root exists. */
module DigitTree {
  import opened PhoneNumbers

  /** Every node in `frame` has its ten-slot array in `frame`, and so has every child it links. */
  ghost predicate Closed(frame: set<object>)
    reads frame
  {
    (forall n: Node | n in frame :: n.links in frame && n.links.Length == 10) &&
    (forall n: Node, d | n in frame && 0 <= d < 10 && n.links in frame && d < n.links.Length ::
      n.links[d] == null || n.links[d] in frame)
  }

  /** 10 to the power `k`: the most nodes `k` levels below one node. */
  function Pow10(k: nat): (p: nat)
    ensures 1 <= p
  {
    if k == 0 then 1 else 10 * Pow10(k - 1)
  }

  /** One tree node: ten child slots, one per digit. */
  class Node {
    const links: array<Node?>

    constructor ()
      ensures fresh(links) && links.Length == 10
      ensures forall d :: 0 <= d < 10 ==> links[d] == null
    {
      links := new Node?[10](_ => null);
    }

    /** Installs a fresh child at slot `digit` only when the slot is empty, and yields the
        child found or installed there. A filled slot is never overwritten. */
    method CreateLink(digit: int) returns (node: Node)
      requires links.Length == 10 && 0 <= digit < 10
      modifies links
      ensures links[digit] == node
      ensures old(links[digit]) != null ==> node == old(links[digit]) && unchanged(links)
      ensures old(links[digit]) == null ==>
        fresh(node) && fresh(node.links) && links[..] == old(links[..])[digit := node] &&
        node.links.Length == 10 && forall d :: 0 <= d < 10 ==> node.links[d] == null
    {
      var link := links[digit];
      if link == null {
        link := new Node();
        links[digit] := link;
      }
      node := link;
    }

    /** The child at slot `digit`, or null when there is none; nothing is changed. */
    method Traverse(digit: int) returns (link: Node?)
      requires links.Length == 10 && 0 <= digit < 10
      ensures link == links[digit]
    {
      link := links[digit];
    }

    /** The number of nodes `seekedDepth - currentDepth` levels below this one
        (1 for this node itself when the two depths are equal); with ten slots per node,
        never more than 10 to the power of the depth difference. */
    function CountLinks(currentDepth: int, seekedDepth: int, ghost frame: set<object>): (count: nat)
      requires this in frame && Closed(frame) && currentDepth <= seekedDepth
      reads frame
      ensures currentDepth == seekedDepth ==> count == 1
      ensures count <= Pow10(seekedDepth - currentDepth)
      decreases seekedDepth - currentDepth, 1, 0
    {
      if currentDepth == seekedDepth then 1
      else SumLinks(0, currentDepth, seekedDepth, frame)
    }

    /** The sum of the children's counts over the non-null slots `slot` .. 9: nothing past
        the last slot, and at most one child's bound for each slot from `slot` on. */
    function SumLinks(slot: int, currentDepth: int, seekedDepth: int, ghost frame: set<object>): (total: nat)
      requires this in frame && Closed(frame) && currentDepth < seekedDepth && 0 <= slot <= 10
      reads frame
      ensures slot == 10 ==> total == 0
      ensures total <= (10 - slot) * Pow10(seekedDepth - currentDepth - 1)
      decreases seekedDepth - currentDepth, 0, 10 - slot
    {
      if slot == 10 then 0
      else
        (if links[slot] == null then 0 else links[slot].CountLinks(currentDepth + 1, seekedDepth, frame))
        + SumLinks(slot + 1, currentDepth, seekedDepth, frame)
    }
  }

  // ---------------------------------------------------------------------------------------
  // Sets of paths

  /** The paths of a tree holding the keys `keys`: the root and every prefix of a key. */
  ghost function Paths(keys: set<seq<int>>): set<seq<int>>
  {
    {[]} + set c, i | c in keys && 0 <= i <= |c| :: c[..i]
  }

  /** The prefixes of `key` of length 0 .. `n`. */
  ghost function Chain(key: seq<int>, n: nat): set<seq<int>>
    requires n <= |key|
  {
    set j | 0 <= j <= n :: key[..j]
  }

  /** Every path but the root has its parent path in the set. */
  ghost predicate PrefixClosed(paths: set<seq<int>>)
  {
    forall s, d :: s + [d] in paths ==> s in paths
  }

  /** Every step of every path is a digit 0 .. 9, a slot of a node. */
  ghost predicate DigitPaths(paths: set<seq<int>>)
  {
    forall s, k :: s in paths && 0 <= k < |s| ==> 0 <= s[k] <= 9
  }

  /** `t` lies `k` levels below `s`. */
  ghost predicate Below(s: seq<int>, t: seq<int>, k: nat)
  {
    |t| == |s| + k && s <= t
  }

  /** The paths `k` levels below `s`. */
  ghost function Level(paths: set<seq<int>>, s: seq<int>, k: nat): set<seq<int>>
  {
    set t | t in paths && Below(s, t, k)
  }

  /** `t` lies `k` levels below `s` and its first digit after `s` is at least `slot`. */
  ghost predicate BelowFrom(s: seq<int>, t: seq<int>, slot: int, k: nat)
  {
    Below(s, t, k) && |s| < |t| && slot <= t[|s|]
  }

  /** The paths `k` levels below `s` whose first digit after `s` is at least `slot`. */
  ghost function LevelFrom(paths: set<seq<int>>, s: seq<int>, slot: int, k: nat): set<seq<int>>
  {
    set t | t in paths && BelowFrom(s, t, slot, k)
  }

  /** Every prefix of a key is a path. */
  lemma PrefixInPaths(keys: set<seq<int>>, c: seq<int>, i: int)
    requires c in keys && 0 <= i <= |c|
    ensures c[..i] in Paths(keys)
  {
  }

  /** One more step along a key adds one more prefix to its chain. */
  lemma ChainStep(key: seq<int>, n: nat)
    requires n < |key|
    ensures key[..n + 1] == key[..n] + [key[n]]
    ensures Chain(key, n + 1) == Chain(key, n) + {key[..n + 1]}
  {
  }

  /** The paths of a set of keys form a prefix-closed set of digit paths. */
  lemma PathsWellFormed(keys: set<seq<int>>)
    requires forall c :: c in keys ==> IsKey(c)
    ensures PrefixClosed(Paths(keys)) && DigitPaths(Paths(keys))
    ensures forall s :: s in Paths(keys) ==> |s| <= LENGTH
  {
    forall s, d | s + [d] in Paths(keys) ensures s in Paths(keys) {
      var c, i :| c in keys && 0 <= i <= |c| && s + [d] == c[..i];
      assert s == c[..i - 1];
      PrefixInPaths(keys, c, i - 1);
    }
  }

  /** Adding one key adds exactly the chain of its prefixes to the paths. */
  lemma PathsInsert(keys: set<seq<int>>, key: seq<int>)
    ensures Paths(keys + {key}) == Paths(keys) + Chain(key, |key|)
  {
    forall s | s in Paths(keys + {key}) ensures s in Paths(keys) + Chain(key, |key|) {
      if s != [] {
        var c, i :| c in keys + {key} && 0 <= i <= |c| && s == c[..i];
        if c != key { PrefixInPaths(keys, c, i); }
      }
    }
    forall s | s in Chain(key, |key|) ensures s in Paths(keys + {key}) {
      var j :| 0 <= j <= |key| && s == key[..j];
      PrefixInPaths(keys + {key}, key, j);
    }
  }

  /** A path as long as a key is itself a key. */
  lemma FullPathIsKey(keys: set<seq<int>>, t: seq<int>)
    requires forall c :: c in keys ==> IsKey(c)
    requires t in Paths(keys) && |t| == LENGTH
    ensures t in keys
  {
    var c, i :| c in keys && 0 <= i <= |c| && t == c[..i];
    assert c[..i] == c;
  }

  /** The paths at the depth of a key are exactly the keys. */
  lemma {:induction false} KeysAtFullDepth(keys: set<seq<int>>)
    requires forall c :: c in keys ==> IsKey(c)
    ensures Level(Paths(keys), [], LENGTH) == keys
  {
    forall t | t in Level(Paths(keys), [], LENGTH) ensures t in keys {
      FullPathIsKey(keys, t);
    }
    forall c | c in keys ensures c in Level(Paths(keys), [], LENGTH) {
      PrefixInPaths(keys, c, |c|);
      assert c[..|c|] == c;
    }
  }

  /** The parent of a path of a prefix-closed set is in the set. */
  lemma ParentPresent(paths: set<seq<int>>, s: seq<int>, d: int)
    requires PrefixClosed(paths) && s + [d] in paths
    ensures s in paths
  {
  }

  /** Every prefix of a path of a prefix-closed set is in the set. */
  lemma {:induction false} PrefixesPresent(paths: set<seq<int>>, t: seq<int>, j: nat)
    requires PrefixClosed(paths) && t in paths && j <= |t|
    ensures t[..j] in paths
    decreases |t| - j
  {
    if j < |t| {
      PrefixesPresent(paths, t, j + 1);
      assert t[..j + 1] == t[..j] + [t[j]];
      ParentPresent(paths, t[..j], t[j]);
    } else {
      assert t[..j] == t;
    }
  }

  /** A path with a descendant in a prefix-closed set is itself in the set. */
  lemma PresentAbove(paths: set<seq<int>>, s: seq<int>, t: seq<int>)
    requires PrefixClosed(paths) && t in paths && s <= t
    ensures s in paths
  {
    PrefixesPresent(paths, t, |s|);
    assert t[..|s|] == s;
  }

  /** Nothing lies below a path that is absent. */
  lemma AbsentHasNoLevel(paths: set<seq<int>>, s: seq<int>, k: nat)
    requires PrefixClosed(paths) && s !in paths
    ensures Level(paths, s, k) == {}
  {
    forall t | t in Level(paths, s, k) ensures false {
      PresentAbove(paths, s, t);
    }
  }

  /** Zero levels below a present path there is the path alone. */
  lemma LevelZero(paths: set<seq<int>>, s: seq<int>)
    requires s in paths
    ensures Level(paths, s, 0) == {s}
  {
    forall t | t in Level(paths, s, 0) ensures t == s {
      assert t[..|s|] == s;
    }
  }

  /** The slots 0 .. 9 cover the whole level. */
  lemma LevelFromFirstSlot(paths: set<seq<int>>, s: seq<int>, k: nat)
    requires DigitPaths(paths) && 1 <= k
    ensures LevelFrom(paths, s, 0, k) == Level(paths, s, k)
  {
  }

  /** No path continues with a digit above 9. */
  lemma LevelFromPastLastSlot(paths: set<seq<int>>, s: seq<int>, k: nat)
    requires DigitPaths(paths)
    ensures LevelFrom(paths, s, 10, k) == {}
  {
  }

  /** Splitting off slot `slot`: the paths through child `slot` and those through the later
      slots are disjoint and make up the paths through slots `slot` .. 9. */
  lemma {:induction false} LevelFromSplit(paths: set<seq<int>>, s: seq<int>, slot: int, k: nat)
    requires 1 <= k
    ensures LevelFrom(paths, s, slot, k) == Level(paths, s + [slot], k - 1) + LevelFrom(paths, s, slot + 1, k)
    ensures |LevelFrom(paths, s, slot, k)| == |Level(paths, s + [slot], k - 1)| + |LevelFrom(paths, s, slot + 1, k)|
  {
    var here := Level(paths, s + [slot], k - 1);
    var later := LevelFrom(paths, s, slot + 1, k);
    forall t | t in here ensures t in LevelFrom(paths, s, slot, k) && t[|s|] == slot {
      assert t[..|s| + 1] == s + [slot];
      assert t[..|s|] == (s + [slot])[..|s|] == s;
      assert t[|s|] == t[..|s| + 1][|s|];
    }
    forall t | t in LevelFrom(paths, s, slot, k) && t[|s|] == slot ensures t in here {
      assert t[..|s| + 1] == t[..|s|] + [t[|s|]];
    }
    assert here * later == {};
  }

  // ---------------------------------------------------------------------------------------
  // The set

  class TreePhoneNumberMutableSet {
    const root: Node
    /** The keys (digit sequences) added so far. */
    ghost var Contents: set<seq<int>>
    /** Each existing path from the root, mapped to the node it reaches. */
    ghost var Nodes: map<seq<int>, Node>
    /** Everything `add` may change: it holds every node of the tree and its array. */
    ghost var Repr: set<object>

    /** The shape of the tree: the map follows the links exactly, no two paths share a node
        array (the structure is a strict tree), and every path's parent path exists too. */
    ghost predicate TreeValid()
      reads this`Nodes, this`Repr, Repr
    {
      [] in Nodes && Nodes[[]] == root &&
      (forall s :: s in Nodes ==> Nodes[s] in Repr && Nodes[s].links in Repr && Nodes[s].links.Length == 10) &&
      (forall s, d {:trigger Nodes[s].links[d]} :: s in Nodes && 0 <= d < 10 ==>
        (Nodes[s].links[d] != null <==> s + [d] in Nodes) &&
        (s + [d] in Nodes ==> Nodes[s].links[d] == Nodes[s + [d]])) &&
      (forall s, t :: s in Nodes && t in Nodes && s != t ==> Nodes[s].links != Nodes[t].links) &&
      PrefixClosed(Nodes.Keys)
    }

    /** The nodes of the tree and their arrays. */
    ghost function Tree(): set<object>
      reads this`Nodes
    {
      (set s | s in Nodes :: Nodes[s] as object) + (set s | s in Nodes :: Nodes[s].links as object)
    }

    /** The nodes of a well-formed tree and their arrays are closed under following links. */
    lemma TreeClosed()
      requires TreeValid()
      ensures Tree() <= Repr && Closed(Tree())
    {
      forall n: Node | n in Tree() ensures n.links in Tree() && n.links.Length == 10 {
        assert n in (set s | s in Nodes :: Nodes[s] as object);
        var s :| s in Nodes && n == Nodes[s];
      }
    }

    /** The tree holds exactly the paths of the keys added. */
    ghost predicate Valid()
      reads this, Repr
    {
      TreeValid() &&
      (forall c :: c in Contents ==> IsKey(c)) &&
      Nodes.Keys == Paths(Contents)
    }

    /** A new set: a root whose ten slots are empty, and no keys. */
    constructor ()
      ensures Valid() && fresh(Repr)
      ensures Contents == {}
      ensures forall d :: 0 <= d < 10 ==> root.links[d] == null
    {
      var r := new Node();
      root := r;
      Contents := {};
      Nodes := map[[] := r];
      Repr := {r, r.links};
      new;
      assert Nodes.Keys == {[]};
    }

    /** `add`: walks the number's digits from the root, creating each missing child.
        Nodes already in the tree keep their place. */
    method Add(phoneNumber: PhoneNumber)
      requires Valid() && IsDigitString(phoneNumber.value)
      modifies this, Repr
      ensures Valid() && fresh(Repr - old(Repr))
      ensures Contents == old(Contents) + {Digits(phoneNumber)}
      ensures forall s :: s in old(Nodes) ==> s in Nodes && Nodes[s] == old(Nodes[s])
    {
      var digits := Digits(phoneNumber);
      DigitsAreKey(phoneNumber);
      LinkPath(digits);
      assert digits[..|digits|] == digits;
      PathsInsert(Contents, digits);
      Contents := Contents + {digits};
    }

    /** The loop of `add`: creates the missing nodes along `digits`. */
    method LinkPath(digits: seq<int>)
      requires TreeValid() && IsKey(digits)
      modifies this, Repr
      ensures TreeValid() && fresh(Repr - old(Repr)) && Contents == old(Contents)
      ensures Nodes.Keys == old(Nodes.Keys) + Chain(digits, |digits|)
      ensures forall s :: s in old(Nodes) ==> s in Nodes && Nodes[s] == old(Nodes[s])
    {
      var node := root;
      for i := 0 to |digits|
        invariant TreeValid() && Contents == old(Contents) && fresh(Repr - old(Repr))
        invariant digits[..i] in Nodes && node == Nodes[digits[..i]]
        invariant Nodes.Keys == old(Nodes.Keys) + Chain(digits, i)
        invariant forall s :: s in old(Nodes) ==> s in Nodes && Nodes[s] == old(Nodes[s])
      {
        ChainStep(digits, i);
        ghost var keys := Nodes.Keys;
        node := LinkChild(digits[..i], node, digits[i]);
        assert Nodes.Keys == keys + {digits[..i + 1]};
      }
    }

    /** One step of `add`: `createLink` on the node at `path`, with the path it extends
        recorded in the ghost map. */
    method LinkChild(path: seq<int>, node: Node, digit: int) returns (child: Node)
      requires TreeValid() && path in Nodes && node == Nodes[path] && 0 <= digit <= 9
      modifies this, node.links
      ensures TreeValid() && fresh(Repr - old(Repr))
      ensures Nodes == old(Nodes)[path + [digit] := child]
      ensures Nodes.Keys == old(Nodes.Keys) + {path + [digit]}
      ensures path + [digit] in old(Nodes) ==> child == old(Nodes)[path + [digit]]
      ensures Contents == old(Contents)
    {
      ghost var t := path + [digit];
      child := node.CreateLink(digit);
      if t !in Nodes {
        ghost var oldNodes, oldRepr := Nodes, Repr;
        Nodes := Nodes[t := child];
        Repr := Repr + {child, child.links};
        forall s, e {:trigger Nodes[s].links[e]} | s in Nodes && 0 <= e < 10
          ensures (Nodes[s].links[e] != null <==> s + [e] in Nodes)
          ensures s + [e] in Nodes ==> Nodes[s].links[e] == Nodes[s + [e]]
        {
          if s != t {
            if s + [e] == t {
              assert |s| == |path|;
              assert (s + [e])[..|s|] == s;
              assert t[..|path|] == path;
            }
          }
        }
        forall s, e | s + [e] in Nodes ensures s in Nodes {
          if s + [e] == t {
            assert |s| == |path|;
            assert (s + [e])[..|s|] == s;
            assert t[..|path|] == path;
          } else {
            ParentPresent(oldNodes.Keys, s, e);
          }
        }
      }
    }

    /** `contains`: follows the number's digits from the root and answers false at the first
        missing child. */
    method Contains(phoneNumber: PhoneNumber) returns (found: bool)
      requires Valid() && IsDigitString(phoneNumber.value)
      ensures found <==> Digits(phoneNumber) in Contents
    {
      var digits := Digits(phoneNumber);
      DigitsAreKey(phoneNumber);
      var node: Node? := root;
      for i := 0 to |digits|
        invariant digits[..i] in Nodes && node == Nodes[digits[..i]]
      {
        node := node.Traverse(digits[i]);
        assert digits[..i + 1] == digits[..i] + [digits[i]];
        if node == null {
          if digits in Contents {
            PrefixInPaths(Contents, digits, i + 1);
          }
          return false;
        }
      }
      assert digits[..|digits|] == digits;
      FullPathIsKey(Contents, digits);
      return true;
    }

    /** `size`: the number of nodes at depth LENGTH, which is the number of keys added. */
    function Size(): (n: int)
      requires Valid()
      reads this, Repr
      ensures n == |Contents|
      ensures n <= 1_000_000_000
    {
      assert Pow10(LENGTH) == 1_000_000_000;
      TreeClosed();
      PathsWellFormed(Contents);
      CountLinksCountsLevel([], 0, LENGTH, Tree());
      KeysAtFullDepth(Contents);
      root.CountLinks(0, LENGTH, Tree())
    }

    /** The count from the node at path `s` is the number of paths `seekedDepth - currentDepth`
        levels below `s`. */
    lemma {:induction false} CountLinksCountsLevel(s: seq<int>, currentDepth: int, seekedDepth: int, frame: set<object>)
      requires TreeValid() && DigitPaths(Nodes.Keys) && s in Nodes && currentDepth <= seekedDepth
      requires Closed(frame) && forall p :: p in Nodes ==> Nodes[p] in frame
      ensures Nodes[s].CountLinks(currentDepth, seekedDepth, frame)
              == |Level(Nodes.Keys, s, seekedDepth - currentDepth)|
      decreases seekedDepth - currentDepth, 1, 0
    {
      if currentDepth == seekedDepth {
        LevelZero(Nodes.Keys, s);
      } else {
        SumLinksCountsSlots(s, 0, currentDepth, seekedDepth, frame);
        LevelFromFirstSlot(Nodes.Keys, s, seekedDepth - currentDepth);
      }
    }

    /** The sum over slots `slot` .. 9 of the node at path `s` counts the paths below `s`
        that go through those slots. */
    lemma {:induction false} SumLinksCountsSlots(s: seq<int>, slot: int, currentDepth: int, seekedDepth: int, frame: set<object>)
      requires TreeValid() && DigitPaths(Nodes.Keys) && s in Nodes && currentDepth < seekedDepth && 0 <= slot <= 10
      requires Closed(frame) && forall p :: p in Nodes ==> Nodes[p] in frame
      ensures Nodes[s].SumLinks(slot, currentDepth, seekedDepth, frame)
              == |LevelFrom(Nodes.Keys, s, slot, seekedDepth - currentDepth)|
      decreases seekedDepth - currentDepth, 0, 10 - slot
    {
      var k := seekedDepth - currentDepth;
      if slot == 10 {
        LevelFromPastLastSlot(Nodes.Keys, s, k);
      } else {
        var child := s + [slot];
        var node := Nodes[s];
        var here := if node.links[slot] == null then 0 else node.links[slot].CountLinks(currentDepth + 1, seekedDepth, frame);
        assert node.SumLinks(slot, currentDepth, seekedDepth, frame)
          == here + node.SumLinks(slot + 1, currentDepth, seekedDepth, frame);
        if child in Nodes {
          assert node.links[slot] == Nodes[child];
          CountLinksCountsLevel(child, currentDepth + 1, seekedDepth, frame);
        } else {
          assert node.links[slot] == null;
          AbsentHasNoLevel(Nodes.Keys, child, k - 1);
        }
        assert here == |Level(Nodes.Keys, child, k - 1)|;
        SumLinksCountsSlots(s, slot + 1, currentDepth, seekedDepth, frame);
        LevelFromSplit(Nodes.Keys, s, slot, k);
      }
    }
  }
}
