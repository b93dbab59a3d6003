/**
 A 4 KiB page with its cache of the 127 interior hashes above its 128 leaves.
 */
module Page {
  import opened Words
  import opened Merkle

  const PAGE_SIZE := 4096
  const PAGE_LEAVES := 128  // PageSize / 32

  class CachedPage {
    const Data: array<Byte>
    const Cache: array<Hash>  // hash of interior node j, meaningful when Ok[j]
    const Ok: array<bool>

    ghost function Repr(): set<object> {
      {Data as object, Cache, Ok}
    }

    ghost predicate Shape()
      reads {}
    {
      Data.Length == PAGE_SIZE && Cache.Length == PAGE_LEAVES && Ok.Length == PAGE_LEAVES &&
      Data as object != Cache && Data as object != Ok && Cache as object != Ok
    }

    // Every hash marked valid is the hash of the current data.
    ghost predicate Coherent(h: HashFn)
      requires Shape()
      reads Data, Cache, Ok
    {
      forall j :: 1 <= j < PAGE_LEAVES && Ok[j] ==> Cache[j] == Tree(h, Data[..], PAGE_LEAVES, j)
    }

    constructor ()
      ensures Shape() && fresh(Repr())
      ensures Data[..] == Zeros(PAGE_SIZE)
      ensures forall j :: 0 <= j < PAGE_LEAVES ==> !Ok[j]
    {
      Data := new Byte[PAGE_SIZE](i => 0);
      Cache := new Hash[PAGE_LEAVES](i => Zeros(32));
      Ok := new bool[PAGE_LEAVES](i => false);
    }

    /** Forget the hashes above the leaf that holds byte `pageAddr`, and no others. */
    method Invalidate(pageAddr: nat, ghost h: HashFn)
      requires Shape() && Coherent(h) && pageAddr < PAGE_SIZE
      modifies Ok
      ensures Coherent(h) && !Ok[1]
      ensures forall j :: 1 <= j < PAGE_LEAVES ==> Ok[j] == (old(Ok[j]) && !Above(j, PAGE_LEAVES + pageAddr / 32))
    {
      var k: nat := (PAGE_SIZE + pageAddr) / 64;
      assert k == (PAGE_LEAVES + pageAddr / 32) / 2;
      ghost var bottom := PAGE_LEAVES + pageAddr / 32;
      AboveOne(bottom);
      while k > 0
        invariant k < PAGE_LEAVES && Above(1, bottom)
        invariant forall j :: 1 <= j < PAGE_LEAVES ==>
          Ok[j] == (old(Ok[j]) && !(Above(j, bottom) && !Above(j, k)))
        invariant forall j :: 1 <= j < PAGE_LEAVES && Above(j, k) ==> Above(j, bottom)
      {
        assert Above(k, bottom);
        Ok[k] := false;
        k := k / 2;
      }
    }

    method InvalidateFull(ghost h: HashFn)
      requires Shape()
      modifies Ok
      ensures Coherent(h) && forall j :: 0 <= j < PAGE_LEAVES ==> !Ok[j]
    {
      forall j | 0 <= j < PAGE_LEAVES {
        Ok[j] := false;
      }
    }

    /** Fill the cache bottom-up and return the root of the page. */
    method MerkleRoot(h: HashFn) returns (root: Hash)
      requires Shape() && Coherent(h)
      modifies Cache, Ok
      ensures Coherent(h) && forall j :: 1 <= j < PAGE_LEAVES ==> Ok[j]
      ensures root == Tree(h, Data[..], PAGE_LEAVES, 1)
    {
      // pairs of leaves
      var i := 0;
      while i < PAGE_SIZE
        invariant 0 <= i <= PAGE_SIZE && i % 64 == 0
        invariant Coherent(h)
        invariant forall t :: 64 <= t < 64 + i / 64 ==> Ok[t]
      {
        var j := 64 + i / 64;
        if !Ok[j] {
          Cache[j] := h(Data[i..i + 32], Data[i + 32..i + 64]);
          assert Cache[j] == Tree(h, Data[..], PAGE_LEAVES, j) by {
            BottomNode(h, Data[..], j, i);
          }
          Ok[j] := true;
        }
        i := i + 64;
      }

      // pairs of hashes, from the bottom up
      i := PAGE_LEAVES - 2;
      while i > 0
        invariant 0 <= i <= PAGE_LEAVES - 2 && i % 2 == 0
        invariant Coherent(h)
        invariant forall t :: i / 2 < t < PAGE_LEAVES ==> Ok[t]
      {
        var j := i / 2;
        if !Ok[j] {
          Cache[j] := h(Cache[i], Cache[i + 1]);
          Ok[j] := true;
        }
        i := i - 2;
      }
      root := Cache[1];
    }

    /** The hash of any node of the page, leaves included. */
    method MerkleizeSubtree(h: HashFn, gindex: nat) returns (node: Hash)
      requires Shape() && Coherent(h) && 1 <= gindex < 2 * PAGE_LEAVES
      modifies Cache, Ok
      ensures Coherent(h) && forall j :: 1 <= j < PAGE_LEAVES ==> Ok[j]
      ensures node == Tree(h, Data[..], PAGE_LEAVES, gindex)
    {
      var _ := MerkleRoot(h); // the hash is known from here on
      if gindex >= PAGE_LEAVES {
        LeafNode(h, Data[..], gindex);
        var nodeIndex: nat := gindex % PAGE_LEAVES;
        node := Data[nodeIndex * 32..nodeIndex * 32 + 32];
      } else {
        node := Cache[gindex];
      }
    }
  }

  // binary.BigEndian.PutUint32
  method PutUint32(a: array<Byte>, offset: nat, v: Word)
    requires offset + 4 <= a.Length
    modifies a
    ensures a[..] == old(a[..offset]) + ToBytes(v) + old(a[offset + 4..])
  {
    var bytes := ToBytes(v);
    a[offset], a[offset + 1], a[offset + 2], a[offset + 3] := bytes[0], bytes[1], bytes[2], bytes[3];
  }

  lemma LeafNode(h: HashFn, data: seq<Byte>, g: nat)
    requires |data| == PAGE_SIZE && PAGE_LEAVES <= g < 2 * PAGE_LEAVES
    ensures var i := g % PAGE_LEAVES; i == g - PAGE_LEAVES && data[i * 32..i * 32 + 32] == Tree(h, data, PAGE_LEAVES, g)
  {
  }

  lemma BottomNode(h: HashFn, data: seq<Byte>, j: nat, i: nat)
    requires |data| == PAGE_SIZE && 64 <= j < 128 && i == 64 * (j - 64)
    ensures Tree(h, data, PAGE_LEAVES, j) == h(data[i..i + 32], data[i + 32..i + 64])
  {
    assert 2 * j - 128 == i / 32;
  }
}
