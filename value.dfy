/**
 * The value model of json_parser.c: the tagged union json_value, and the recursive
 * release json_free_value.
 */
module JsonValues {

  import opened Wrappers

  /**
   * A parsed JSON value. A Number keeps the characters strtod consumed (its
   * lexeme) instead of the double strtod computes. An Object is the flat vector
   * of its pairs: slot 2i holds the i-th key, slot 2i+1 its value.
   */
  datatype Value =
    | Null
    | Bool(b: bool)
    | Number(lexeme: string)
    | String(chars: string)
    | Array(elems: seq<Value>)
    | Object(pairs: seq<Value>)

  /** The children a composite value owns through its vector (none for scalars). */
  function Children(v: Value): (cs: seq<Value>)
    ensures v.Array? ==> cs == v.elems
    ensures v.Object? ==> cs == v.pairs
    ensures !v.Array? && !v.Object? ==> cs == []
  {
    match v
    case Array(es) => es
    case Object(ps) => ps
    case _ => []
  }

  /** Every object in the tree has an even number of slots (whole key/value pairs). */
  predicate WellFormed(v: Value)
  {
    match v
    case Array(es) => forall i | 0 <= i < |es| :: WellFormed(es[i])
    case Object(ps) => |ps| % 2 == 0 && forall i | 0 <= i < |ps| :: WellFormed(ps[i])
    case _ => true
  }

  /**
   * A block of memory a value owns: a string's characters, or a vector's buffer.
   * A buffer is labelled by the number of elements it holds (the vector's size),
   * not by the capacity vector_reserve allocated for it.
   */
  datatype Block = StringBlock(chars: string) | VectorBlock(size: nat)

  /**
   * The blocks json_free_value releases, in the order it releases them: a string
   * releases its characters; an array or object releases each child in order and
   * then its own buffer; every other value owns nothing.
   */
  function Released(v: Value): (r: seq<Block>)
    ensures v.String? ==> r == [StringBlock(v.chars)]
    ensures v.Null? || v.Bool? || v.Number? ==> r == []
    ensures v.Array? || v.Object? ==>
      |r| > 0 && r[|r| - 1] == VectorBlock(|Children(v)|)
    decreases v, 1
  {
    match v
    case String(cs) => [StringBlock(cs)]
    case Array(es) => ReleasedChildren(v, |es|) + [VectorBlock(|es|)]
    case Object(ps) => ReleasedChildren(v, |ps|) + [VectorBlock(|ps|)]
    case _ => []
  }

  /** The blocks released by the first n children of v, in order. */
  function ReleasedChildren(v: Value, n: nat): seq<Block>
    requires n <= |Children(v)|
    decreases v, 0, n
  {
    if n == 0 then [] else ReleasedChildren(v, n - 1) + Released(Children(v)[n - 1])
  }

  /**
   * The blocks a tree owns, as a bag: one for each string's characters and one
   * for each array's or object's buffer, wherever they sit in the tree.
   */
  function OwnedBlocks(v: Value): multiset<Block>
  {
    match v
    case String(cs) => multiset{StringBlock(cs)}
    case Array(es) => OwnedAll(es) + multiset{VectorBlock(|es|)}
    case Object(ps) => OwnedAll(ps) + multiset{VectorBlock(|ps|)}
    case _ => multiset{}
  }

  function OwnedAll(vs: seq<Value>): multiset<Block>
  {
    if vs == [] then multiset{} else OwnedAll(vs[..|vs| - 1]) + OwnedBlocks(vs[|vs| - 1])
  }

  /**
   * json_free_value releases exactly the blocks the tree owns, each as many times
   * as the tree owns it: nothing leaks and nothing is released twice.
   */
  lemma {:induction false} ReleasedIsOwned(v: Value)
    ensures multiset(Released(v)) == OwnedBlocks(v)
    ensures |Released(v)| == |OwnedBlocks(v)|
    decreases v, 1
  {
    if v.Array? || v.Object? {
      var cs := Children(v);
      assert multiset(Released(v)) == multiset(ReleasedChildren(v, |cs|)) + multiset{VectorBlock(|cs|)} by {
        assert Released(v) == ReleasedChildren(v, |cs|) + [VectorBlock(|cs|)];
      }
      assert OwnedBlocks(v) == OwnedAll(cs[..|cs|]) + multiset{VectorBlock(|cs|)} by {
        assert cs[..|cs|] == cs;
      }
      ReleasedChildrenOwned(v, |cs|);
    }
  }

  lemma {:induction false} ReleasedChildrenOwned(v: Value, n: nat)
    requires n <= |Children(v)|
    ensures multiset(ReleasedChildren(v, n)) == OwnedAll(Children(v)[..n])
    decreases v, 0, n
  {
    var cs := Children(v);
    if n > 0 {
      var prefix, last := ReleasedChildren(v, n - 1), Released(cs[n - 1]);
      assert multiset(ReleasedChildren(v, n)) == multiset(prefix) + multiset(last) by {
        assert ReleasedChildren(v, n) == prefix + last;
      }
      assert OwnedAll(cs[..n]) == OwnedAll(cs[..n - 1]) + OwnedBlocks(cs[n - 1]) by {
        assert cs[..n][..n - 1] == cs[..n - 1] && cs[..n][n - 1] == cs[n - 1];
      }
      ReleasedChildrenOwned(v, n - 1);
      ReleasedIsOwned(cs[n - 1]);
    }
  }

  /** The subtree at path p, a sequence of child indices from v; absent when p leaves the tree. */
  function Subtree(v: Value, p: seq<nat>): Option<Value>
    decreases |p|
  {
    if p == [] then Some(v)
    else if p[0] < |Children(v)| then Subtree(Children(v)[p[0]], p[1..])
    else None
  }

  /** The block owned by the node at path p; absent when no node is there or it owns none. */
  function BlockAt(v: Value, p: seq<nat>): Option<Block>
  {
    match Subtree(v, p)
    case Some(String(cs)) => Some(StringBlock(cs))
    case Some(Array(es)) => Some(VectorBlock(|es|))
    case Some(Object(ps)) => Some(VectorBlock(|ps|))
    case _ => None
  }

  /**
   * The paths of the nodes json_free_value releases a block of, in release order:
   * the k-th block of Released(v) is the one owned by the node at the k-th path.
   */
  function FreeOrder(v: Value): seq<seq<nat>>
    decreases v, 1
  {
    match v
    case String(_) => [[]]
    case Array(es) => FreeOrderChildren(v, |es|) + [[]]
    case Object(ps) => FreeOrderChildren(v, |ps|) + [[]]
    case _ => []
  }

  /** The release paths of the first n children of v, in order. */
  function FreeOrderChildren(v: Value, n: nat): seq<seq<nat>>
    requires n <= |Children(v)|
    decreases v, 0, n
  {
    if n == 0 then [] else FreeOrderChildren(v, n - 1) + Under(n - 1, FreeOrder(Children(v)[n - 1]))
  }

  /** The paths ps, each moved under child i. */
  function Under(i: nat, ps: seq<seq<nat>>): (r: seq<seq<nat>>)
    ensures |r| == |ps| && forall k | 0 <= k < |ps| :: r[k] == [i] + ps[k]
  {
    seq(|ps|, k requires 0 <= k < |ps| => [i] + ps[k])
  }

  /** The block at path [i] + q of v is the block at q of child i. */
  lemma BlockAtChild(v: Value, i: nat, q: seq<nat>)
    requires i < |Children(v)|
    ensures BlockAt(v, [i] + q) == BlockAt(Children(v)[i], q)
  {
    assert ([i] + q)[1..] == q;
  }

  /**
   * json_free_value releases, block by block, exactly the blocks the tree owns,
   * each once: the k-th block released is the one owned by the node at the k-th
   * path of FreeOrder; no path comes twice; and every node that owns a block is
   * on it. Two equal strings in the tree are two paths, so both are released.
   */
  lemma ReleasesEachOwnedBlockOnce(v: Value)
    ensures |FreeOrder(v)| == |Released(v)|
    ensures forall k | 0 <= k < |Released(v)| :: BlockAt(v, FreeOrder(v)[k]) == Some(Released(v)[k])
    ensures forall a, b | 0 <= a < b < |FreeOrder(v)| :: FreeOrder(v)[a] != FreeOrder(v)[b]
    ensures forall p :: p in FreeOrder(v) <==> BlockAt(v, p).Some?
  {
    FreeOrderLabels(v);
    FreeOrderDistinct(v);
    forall p | BlockAt(v, p).Some?
      ensures p in FreeOrder(v)
    {
      FreeOrderComplete(v, p);
    }
  }

  /** The k-th path of paths leads to a node that owns the k-th block of blocks. */
  predicate Labels(v: Value, paths: seq<seq<nat>>, blocks: seq<Block>)
  {
    |paths| == |blocks| && forall k | 0 <= k < |paths| :: BlockAt(v, paths[k]) == Some(blocks[k])
  }

  lemma LabelsAppend(v: Value, p1: seq<seq<nat>>, b1: seq<Block>, p2: seq<seq<nat>>, b2: seq<Block>)
    requires Labels(v, p1, b1) && Labels(v, p2, b2)
    ensures Labels(v, p1 + p2, b1 + b2)
  {
    forall k | 0 <= k < |p1 + p2|
      ensures BlockAt(v, (p1 + p2)[k]) == Some((b1 + b2)[k])
    {
      if k >= |p1| {
        assert (p1 + p2)[k] == p2[k - |p1|] && (b1 + b2)[k] == b2[k - |p1|];
      }
    }
  }

  lemma LabelsUnder(v: Value, i: nat, ps: seq<seq<nat>>, bs: seq<Block>)
    requires i < |Children(v)| && Labels(Children(v)[i], ps, bs)
    ensures Labels(v, Under(i, ps), bs)
  {
    forall k | 0 <= k < |ps|
      ensures BlockAt(v, Under(i, ps)[k]) == Some(bs[k])
    {
      BlockAtChild(v, i, ps[k]);
    }
  }

  lemma {:induction false} FreeOrderLabels(v: Value)
    ensures Labels(v, FreeOrder(v), Released(v))
    decreases v, 1
  {
    if v.Array? || v.Object? {
      var cs := Children(v);
      FreeOrderChildrenLabels(v, |cs|);
      assert Labels(v, [[]], [VectorBlock(|cs|)]);
      LabelsAppend(v, FreeOrderChildren(v, |cs|), ReleasedChildren(v, |cs|), [[]], [VectorBlock(|cs|)]);
    }
  }

  lemma {:induction false} FreeOrderChildrenLabels(v: Value, n: nat)
    requires n <= |Children(v)|
    ensures Labels(v, FreeOrderChildren(v, n), ReleasedChildren(v, n))
    decreases v, 0, n
  {
    if n > 0 {
      var c := Children(v)[n - 1];
      FreeOrderChildrenLabels(v, n - 1);
      FreeOrderLabels(c);
      LabelsUnder(v, n - 1, FreeOrder(c), Released(c));
      LabelsAppend(v, FreeOrderChildren(v, n - 1), ReleasedChildren(v, n - 1), Under(n - 1, FreeOrder(c)), Released(c));
    }
  }

  /** Every release path below the root starts with the index of a child before n. */
  lemma {:induction false} FreeOrderChildrenHeads(v: Value, n: nat)
    requires n <= |Children(v)|
    ensures forall k | 0 <= k < |FreeOrderChildren(v, n)| ::
      |FreeOrderChildren(v, n)[k]| > 0 && FreeOrderChildren(v, n)[k][0] < n
    decreases n
  {
    if n > 0 {
      FreeOrderChildrenHeads(v, n - 1);
    }
  }

  lemma {:induction false} FreeOrderDistinct(v: Value)
    ensures forall a, b | 0 <= a < b < |FreeOrder(v)| :: FreeOrder(v)[a] != FreeOrder(v)[b]
    decreases v, 1
  {
    match v
    case Array(es) =>
      FreeOrderChildrenDistinct(v, |es|);
      FreeOrderChildrenHeads(v, |es|);
    case Object(ps) =>
      FreeOrderChildrenDistinct(v, |ps|);
      FreeOrderChildrenHeads(v, |ps|);
    case _ =>
  }

  lemma {:induction false} FreeOrderChildrenDistinct(v: Value, n: nat)
    requires n <= |Children(v)|
    ensures forall a, b | 0 <= a < b < |FreeOrderChildren(v, n)| ::
      FreeOrderChildren(v, n)[a] != FreeOrderChildren(v, n)[b]
    decreases v, 0, n
  {
    if n > 0 {
      var front, back := FreeOrderChildren(v, n - 1), Under(n - 1, FreeOrder(Children(v)[n - 1]));
      FreeOrderChildrenDistinct(v, n - 1);
      FreeOrderChildrenHeads(v, n - 1);
      FreeOrderDistinct(Children(v)[n - 1]);
      forall a, b | 0 <= a < b < |front + back|
        ensures (front + back)[a] != (front + back)[b]
      {
        if a >= |front| {
          assert back[b - |front|][1..] == FreeOrder(Children(v)[n - 1])[b - |front|];
          assert back[a - |front|][1..] == FreeOrder(Children(v)[n - 1])[a - |front|];
        } else if b >= |front| {
          assert (front + back)[b][0] == n - 1;
        }
      }
    }
  }

  /** The release paths of the first m children come first among those of the first n. */
  lemma {:induction false} FreeOrderChildrenPrefix(v: Value, m: nat, n: nat)
    requires m <= n <= |Children(v)|
    ensures FreeOrderChildren(v, m) <= FreeOrderChildren(v, n)
    decreases n
  {
    if m < n {
      FreeOrderChildrenPrefix(v, m, n - 1);
    }
  }

  /** A release path q of child i is, under i, a release path of v. */
  lemma InFreeOrderOfChild(v: Value, i: nat, q: seq<nat>)
    requires i < |Children(v)| && q in FreeOrder(Children(v)[i])
    ensures [i] + q in FreeOrder(v)
  {
    var c := Children(v)[i];
    var k :| 0 <= k < |FreeOrder(c)| && FreeOrder(c)[k] == q;
    var at := |FreeOrderChildren(v, i)| + k;
    assert FreeOrderChildren(v, i + 1)[at] == [i] + q by {
      assert FreeOrderChildren(v, i + 1) == FreeOrderChildren(v, i) + Under(i, FreeOrder(c));
    }
    FreeOrderChildrenPrefix(v, i + 1, |Children(v)|);
    assert FreeOrderChildren(v, |Children(v)|)[at] == [i] + q;
    assert FreeOrder(v) == FreeOrderChildren(v, |Children(v)|) + [[]];
    assert FreeOrder(v)[at] == [i] + q;
  }

  lemma {:induction false} FreeOrderComplete(v: Value, p: seq<nat>)
    requires BlockAt(v, p).Some?
    ensures p in FreeOrder(v)
    decreases |p|
  {
    if p != [] {
      var i, q := p[0], p[1..];
      assert p == [i] + q;
      BlockAtChild(v, i, q);
      FreeOrderComplete(Children(v)[i], q);
      InFreeOrderOfChild(v, i, q);
    }
  }

  /**
   * json_free_value: releases the children of an array or object one by one
   * (vector_foreach), then its buffer, a string's characters otherwise, and
   * always leaves the value Null, which owns nothing: a second release is a no-op.
   */
  method Release(v: Value) returns (r: Value, freed: seq<Block>)
    ensures r == Null && Released(r) == []
    ensures freed == Released(v)
    decreases v
  {
    match v {
      case String(cs) =>
        freed := [StringBlock(cs)];
      case Array(_) =>
        freed := ReleaseChildren(v);
      case Object(_) =>
        freed := ReleaseChildren(v);
      case _ =>
        freed := [];
    }
    r := Null;
  }

  /** The array/object arm of json_free_value: each child, then the buffer. */
  method ReleaseChildren(v: Value) returns (freed: seq<Block>)
    requires v.Array? || v.Object?
    ensures freed == Released(v)
    decreases v, 0
  {
    var cs := Children(v);
    freed := [];
    for i := 0 to |cs|
      invariant freed == ReleasedChildren(v, i)
    {
      var _, more := Release(cs[i]);
      freed := freed + more;
    }
    freed := freed + [VectorBlock(|cs|)];
  }
}
