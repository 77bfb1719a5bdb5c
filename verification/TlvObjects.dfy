/** The TLV object of tlv.cpp: its fields, its setters, and its loops, each against the trees of TlvTrees. */
module TlvObjects {
  import opened Arithmetic
  import opened Bytes
  import opened TlvTrees

  class Node {
    var tag: byte
    var sizeTag: byte
    var sizeVector: ByteVector
    var content: ByteVector
    var children: seq<Node>
    ghost var Repr: set<object>

    /** The nodes below are owned; none of them contains this one. */
    ghost predicate Valid()
      reads this, Repr
      decreases Repr
    {
      && this in Repr
      && forall c <- children :: c in Repr && c.Repr < Repr && this !in c.Repr && c.Valid()
    }

    /** The tree this object is the root of. */
    ghost function Model(): Tlv
      requires Valid()
      reads this, Repr
      decreases Repr
    {
      Tlv(tag, sizeTag, sizeVector, content,
          seq(|children|, i requires 0 <= i < |children| && Valid() reads this, Repr => children[i].Model()))
    }

    constructor (t: byte)
      ensures Valid() && Repr == {this}
      ensures Model() == Tlv(t, 0, [], [], [])
    {
      tag, sizeTag, sizeVector, content, children := t, 0, [], [], [];
      Repr := {this};
    }

    method SetTag(t: byte)
      requires Valid()
      modifies this
      ensures Valid() && Repr == old(Repr)
      ensures Model() == old(Model()).(tag := t)
    {
      tag := t;
    }

    /** value(bytes): drops the children. */
    method SetContent(v: ByteVector)
      requires Valid()
      modifies this
      ensures Valid() && Repr == old(Repr)
      ensures Model() == old(Model()).(content := v, children := []) && Value(Model()) == v
    {
      children := [];
      content := v;
    }

    method SetFlag(v: bool)
      requires Valid()
      modifies this
      ensures Valid() && Repr == old(Repr)
      ensures Model() == old(Model()).(content := [if v then 1 else 0], children := [])
    {
      SetContent([if v then 1 else 0]);
    }

    /** value(tlv): one child, not copied. */
    method SetChild(c: Node)
      requires Valid() && c.Valid() && this !in c.Repr
      modifies this
      ensures Valid() && Repr == old(Repr) + c.Repr
      ensures Model() == old(Model()).(content := [], children := [c.Model()])
      ensures Value(Model()) == Compute(c.Model())
    {
      children := [c];
      content := [];
      Repr := Repr + c.Repr;
      OneChild(c.Model());
    }

    /** value(list): the old content stays behind the children. */
    method SetChildren(cs: seq<Node>, ghost ts: seq<Tlv>)
      requires Valid() && AllSpell(cs, ts) && forall c <- cs :: this !in c.Repr
      modifies this
      ensures Valid() && Repr == old(Repr) + Union(cs)
      ensures Model() == old(Model()).(children := ts)
    {
      hide Union, AllSpell;
      NotOwned(cs, ts);
      ghost var below := Union(cs);
      children := cs;
      Repr := Repr + below;
      Owned(cs, ts);
    }

    lemma NotOwned(cs: seq<Node>, ts: seq<Tlv>)
      requires AllSpell(cs, ts) && forall c <- cs :: this !in c.Repr
      ensures this !in Union(cs) && this !in cs
    {
      forall i | 0 <= i < |cs|
        ensures cs[i] in cs[i].Repr
      {
        assert Spells(cs[i], ts[i]);
      }
    }

    lemma Owned(cs: seq<Node>, ts: seq<Tlv>)
      requires AllSpell(cs, ts) && this in Repr && children == cs && Union(cs) <= Repr
      requires forall c <- cs :: this !in c.Repr
      ensures Valid() && Model() == Tlv(tag, sizeTag, sizeVector, content, ts)
    {
      forall c | c in cs
        ensures c in Repr && c.Repr < Repr && c.Valid()
      {
        assert c.Repr <= Union(cs);
      }
      assert Model().children == ts;
    }

    method SetSizeTag(t: byte)
      requires Valid()
      modifies this
      ensures Valid() && Repr == old(Repr)
      ensures Model() == old(Model()).(sizeTag := t)
    {
      sizeTag := t;
    }

    method SetSizeVector(size: ByteVector)
      requires Valid()
      modifies this
      ensures Valid() && Repr == old(Repr)
      ensures Model() == old(Model()).(sizeTag := SizeTagAfter(old(sizeTag), size), sizeVector := size)
    {
      if |size| == 1 {
        sizeTag := size[0];
      }
      sizeVector := size;
    }

    /** value: the children one after the other, or the content. */
    method GetValue() returns (v: ByteVector)
      requires Valid()
      ensures v == Value(Model())
      decreases Repr, 0
    {
      if |children| > 0 {
        v := [];
        ghost var models := Model().children;
        for i := 0 to |children|
          invariant v == ComputeAll(models[..i])
        {
          var sub := children[i].ComputeBytes();
          ComputeAllSnoc(models[..i], models[i]);
          assert models[..i] + [models[i]] == models[..i + 1];
          v := v + sub;
        }
        assert models[..|children|] == models;
        return v;
      }
      return content;
    }

    /** compute: tag, length cut to one byte, value. */
    method ComputeBytes() returns (ret: ByteVector)
      requires Valid()
      ensures ret == Compute(Model())
      decreases Repr, 1
    {
      var v := GetValue();
      ret := [];
      ret := ret + [tag];
      ret := ret + [|v| % 256];
      ret := ret + v;
    }

    method GetComplete() returns (stock: ByteVector)
      requires Valid()
      ensures stock == Complete(Model())
    {
      stock := [tag];
      stock := stock + [sizeTag];
      if |sizeVector| > 1 {
        stock := stock + sizeVector;
      }
      stock := stock + content;
    }

    /** get_child of this node. */
    method Child(wanted: byte) returns (r: Result<Node, Trouble>)
      requires Valid()
      ensures r.Err? ==> GetChild(Model(), wanted) == Err(r.error)
      ensures r.Ok? ==> r.value.Valid() && GetChild(Model(), wanted) == Ok(r.value.Model())
      ensures r.Ok? ==> r.value.tag == wanted && (children != [] ==> r.value in children)
    {
      var tlvs := children;
      if |tlvs| < 1 {
        var p := ParseNodes(content, false);
        if p.Err? {
          return Err(p.error);
        }
        LeavesSpell(p.value, Parse(content, false).value);
        r := FirstNodeWith(p.value, Parse(content, false).value, wanted);
      } else {
        r := FirstNodeWith(tlvs, Model().children, wanted);
      }
    }
  }

  ghost function Union(nodes: seq<Node>): set<object>
    reads nodes
  {
    set n, o | n in nodes && o in n.Repr :: o
  }

  /** The object is the root of this tree. */
  ghost predicate Spells(n: Node, t: Tlv)
    reads n, n.Repr
  {
    n.Valid() && n.Model() == t
  }

  ghost predicate AllSpell(nodes: seq<Node>, ts: seq<Tlv>)
    reads nodes, Union(nodes)
  {
    |nodes| == |ts| && forall i :: 0 <= i < |nodes| ==> Spells(nodes[i], ts[i])
  }

  lemma OneChild(t: Tlv)
    ensures ComputeAll([t]) == Compute(t)
  {
    assert [t][1..] == [];
  }

  lemma {:induction false} ComputeAllSnoc(ts: seq<Tlv>, t: Tlv)
    ensures ComputeAll(ts + [t]) == ComputeAll(ts) + Compute(t)
    decreases |ts|
  {
    hide Compute;
    if |ts| == 0 {
      assert ts + [t] == [t];
      OneChild(t);
    } else {
      assert (ts + [t])[1..] == ts[1..] + [t];
      ComputeAllSnoc(ts[1..], t);
    }
  }

  // ----- lengths -----

  lemma {:induction false} BigEndianCons(b: byte, s: ByteVector)
    ensures BigEndian([b] + s) == b * Power256(|s|) + BigEndian(s)
  {
    if |s| > 0 {
      var n := |s| - 1;
      assert ([b] + s)[..|s|] == [b] + s[..n];
      BigEndianCons(b, s[..n]);
      Distribute(b, Power256(n));
    }
  }

  lemma Distribute(b: nat, p: nat)
    ensures 256 * (b * p) == b * (256 * p)
  {
  }

  /** One step of the length loop on wrapped numbers is the step on true ones, wrapped. */
  lemma WrappedStep(sum: nat, b: nat, p: nat)
    ensures (sum % SIZE_T + b * (p % SIZE_T)) % SIZE_T == (b * p + sum) % SIZE_T
  {
    var q, r := p / SIZE_T, p % SIZE_T;
    assert b * p == SIZE_T * (b * q) + b * r;
    var k, t := (sum % SIZE_T + b * r) / SIZE_T, (sum % SIZE_T + b * r) % SIZE_T;
    assert b * p + sum == SIZE_T * (b * q + sum / SIZE_T + k) + t;
    RemainderUnique(b * p + sum, SIZE_T, b * q + sum / SIZE_T + k, t);
  }

  /** The length bytes are added up from the last one, in wrapping arithmetic. */
  method LengthOf(lengths: ByteVector) returns (size: nat)
    ensures size == BigEndian(lengths) % 0x1_0000_0000_0000_0000
  {
    size := 0;
    var multiplicator := 1;
    var left := |lengths|;
    while left > 0
      invariant 0 <= left <= |lengths|
      invariant size == BigEndian(lengths[left..]) % SIZE_T
      invariant multiplicator == Power256(|lengths| - left) % SIZE_T
    {
      left := left - 1;
      BigEndianCons(lengths[left], lengths[left + 1..]);
      assert lengths[left..] == [lengths[left]] + lengths[left + 1..];
      WrappedStep(BigEndian(lengths[left + 1..]), lengths[left], Power256(|lengths| - left - 1));
      WrappedStep(0, 256, Power256(|lengths| - left - 1));
      size := (size + lengths[left] * multiplicator) % SIZE_T;
      multiplicator := (256 * multiplicator) % SIZE_T;
    }
    assert lengths[0..] == lengths;
  }

  // ----- parsing -----

  datatype NodeReading = OutsideBuffer | CutAt(at: nat) | NodeRead(node: Node, next: nat)

  /** One round of the parsing loop: a new node, filled as its bytes are read. */
  method ReadNode(bytes: ByteVector, start: nat) returns (r: NodeReading)
    requires start < |bytes|
    ensures r.OutsideBuffer? ==> ReadOne(bytes, start) == Outside
    ensures r.CutAt? ==> ReadOne(bytes, start) == Cut(r.at)
    ensures r.NodeRead? ==>
              && fresh(r.node) && ReadOne(bytes, start).Read? && r.next == ReadOne(bytes, start).next
              && Leaf(r.node, ReadOne(bytes, start).tlv)
  {
    var idx := start;
    var node := new Node(bytes[idx]);
    idx := idx + 1;
    if idx == |bytes| {
      return OutsideBuffer;
    }
    var size;
    if bytes[idx] > MAX_SHORT {
      node.SetSizeTag(bytes[idx]);
      var lengthSize := bytes[idx] - 0x80;
      idx := idx + 1;
      if idx + lengthSize > |bytes| {
        return CutAt(idx);
      }
      var lengths := bytes[idx..idx + lengthSize];
      idx := idx + lengthSize;
      node.SetSizeVector(lengths);
      size := LengthOf(lengths);
    } else {
      node.SetSizeVector([bytes[idx]]);
      size := bytes[idx];
      idx := idx + 1;
    }
    if idx + size > |bytes| {
      return if idx + size < SIZE_T then CutAt(idx) else OutsideBuffer;
    }
    var data := bytes[idx..idx + size];
    idx := idx + |data|;
    node.SetContent(data);
    return NodeRead(node, idx);
  }

  /** A node of its own without children, for this tree. */
  ghost predicate Leaf(n: Node, t: Tlv)
    reads n
  {
    && n.children == [] && n.Repr == {n}
    && t == Tlv(n.tag, n.sizeTag, n.sizeVector, n.content, [])
  }

  ghost predicate Leaves(nodes: seq<Node>, ts: seq<Tlv>)
    reads nodes
  {
    |nodes| == |ts| && forall i :: 0 <= i < |nodes| ==> Leaf(nodes[i], ts[i])
  }

  lemma LeavesSpell(nodes: seq<Node>, ts: seq<Tlv>)
    requires Leaves(nodes, ts)
    ensures AllSpell(nodes, ts)
  {
    forall i | 0 <= i < |nodes|
      ensures Spells(nodes[i], ts[i])
    {
      assert Leaf(nodes[i], ts[i]);
    }
  }

  lemma PrependOne(bytes: ByteVector, idx: nat, done: seq<Tlv>)
    requires idx < |bytes| && ReadOne(bytes, idx).Read?
    ensures var r := ReadOne(bytes, idx);
            Prepend(done, ParseFrom(bytes, idx)) == Prepend(done + [r.tlv], ParseFrom(bytes, r.next))
  {
    var r := ReadOne(bytes, idx);
    var o := ParseFrom(bytes, r.next);
    assert o.Parsed? ==> done + ([r.tlv] + o.tlvs) == (done + [r.tlv]) + o.tlvs;
  }

  lemma PrependNone(bytes: ByteVector, idx: nat, done: seq<Tlv>)
    requires idx <= |bytes|
    ensures Prepend([], ParseFrom(bytes, 0)) == ParseFrom(bytes, 0)
    ensures idx == |bytes| ==> Prepend(done, ParseFrom(bytes, idx)) == Parsed(done, idx)
    ensures idx < |bytes| && ReadOne(bytes, idx).Cut? ==>
              Prepend(done, ParseFrom(bytes, idx)) == Parsed(done, ReadOne(bytes, idx).at)
    ensures idx < |bytes| && ReadOne(bytes, idx).Outside? ==> Prepend(done, ParseFrom(bytes, idx)) == Undefined
  {
    assert done + [] == done;
  }

  lemma LeavesOfNone()
    ensures Leaves([], [])
  {
  }

  lemma LeavesSnoc(nodes: seq<Node>, ts: seq<Tlv>, n: Node, t: Tlv)
    requires Leaves(nodes, ts) && Leaf(n, t)
    ensures Leaves(nodes + [n], ts + [t])
  {
  }

  /** parse_tlvs with its count of consumed bytes. */
  method ParseConsuming(bytes: ByteVector) returns (defined: bool, tlvs: seq<Node>, consumed: nat)
    ensures fresh(tlvs)
    ensures defined ==>
              && ParseFrom(bytes, 0).Parsed? && consumed == ParseFrom(bytes, 0).consumed
              && Leaves(tlvs, ParseFrom(bytes, 0).tlvs)
    ensures !defined ==> ParseFrom(bytes, 0) == Undefined
  {
    hide ReadOne, ParseFrom, Prepend, Leaf, Leaves;
    tlvs := [];
    LeavesOfNone();
    PrependNone(bytes, 0, []);
    var idx := 0;
    ghost var done: seq<Tlv> := [];
    while idx < |bytes|
      invariant idx <= |bytes|
      invariant fresh(tlvs) && Leaves(tlvs, done)
      invariant ParseFrom(bytes, 0) == Prepend(done, ParseFrom(bytes, idx))
    {
      PrependNone(bytes, idx, done);
      var r := ReadNode(bytes, idx);
      if r.OutsideBuffer? {
        return false, tlvs, idx;
      }
      if r.CutAt? {
        return true, tlvs, r.at;
      }
      PrependOne(bytes, idx, done);
      LeavesSnoc(tlvs, done, r.node, ReadOne(bytes, idx).tlv);
      tlvs := tlvs + [r.node];
      done := done + [ReadOne(bytes, idx).tlv];
      idx := r.next;
    }
    PrependNone(bytes, idx, done);
    return true, tlvs, idx;
  }

  /** parse_tlvs with its strict switch. */
  method ParseNodes(bytes: ByteVector, strict: bool) returns (r: Result<seq<Node>, Trouble>)
    ensures r.Err? ==> Parse(bytes, strict) == Err(r.error)
    ensures r.Ok? ==> fresh(r.value) && Parse(bytes, strict).Ok? && Leaves(r.value, Parse(bytes, strict).value)
  {
    var defined, tlvs, consumed := ParseConsuming(bytes);
    if !defined {
      return Err(OutOfBounds);
    }
    if strict && consumed != |bytes| {
      return Err(NotAtEnd);
    }
    return Ok(tlvs);
  }

  /** get_child in a list: the first node with the tag. */
  method FirstNodeWith(tlvs: seq<Node>, ghost ts: seq<Tlv>, wanted: byte) returns (r: Result<Node, Trouble>)
    requires AllSpell(tlvs, ts)
    ensures r.Err? ==> FirstWith(ts, wanted) == Err(r.error)
    ensures r.Ok? ==> r.value in tlvs && r.value.tag == wanted && FirstWith(ts, wanted) == Ok(r.value.Model())
    ensures r.Err? <==> forall n <- tlvs :: n.tag != wanted
  {
    for i := 0 to |tlvs|
      invariant FirstWith(ts, wanted) == FirstWith(ts[i..], wanted)
      invariant forall j :: 0 <= j < i ==> tlvs[j].tag != wanted
    {
      assert Spells(tlvs[i], ts[i]);
      if tlvs[i].tag == wanted {
        return Ok(tlvs[i]);
      }
      assert ts[i..][1..] == ts[i + 1..];
    }
    return Err(NoChild);
  }
}
