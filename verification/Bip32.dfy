/** Nodes that are derived in place: hdnode_private_ckd and hdnode_public_ckd. */
module Bip32 {
  import opened Arith
  import opened Modular
  import opened Words
  import opened Wrappers
  import opened BignumSpec
  import opened FieldOps
  import opened CurveSpec
  import opened CurveClosure
  import opened CurveGroup
  import opened CurvePoints
  import opened Keys
  import opened EcdsaSpec
  import opened Ecdsa
  import opened Bip32Spec

  class HDNode {
    var depth: u32
    var childNum: u32
    var chainCode: b256
    var privateKey: b256
    var publicKey: Key33
    var curve: CurveInfo

    constructor (v: Node)
      ensures View() == v
    {
      depth, childNum, chainCode := v.depth, v.childNum, v.chainCode;
      privateKey, publicKey, curve := v.privateKey, v.publicKey, v.curve;
    }

    function View(): Node
      reads this
    {
      Node(depth, childNum, chainCode, privateKey, publicKey, curve)
    }

    /** memcpy of a whole node. */
    method Assign(v: Node)
      modifies this
      ensures View() == v
    {
      depth, childNum, chainCode := v.depth, v.childNum, v.chainCode;
      privateKey, publicKey, curve := v.privateKey, v.publicKey, v.curve;
    }
  }

  /** ecdsa_get_public_key33; the denominator of the scalar multiplication is random. */
  method GetPublicKey33(c: Curve, k: int) returns (key: Key33)
    requires Setting(c) && 0 <= k < c.order
    ensures key == EncodedMultiple(c, k)
  {
    var mask: int :| 0 < mask < c.prime by { assert 0 < 1 < c.prime; }
    var point := new CurvePoint(0, 0);
    ScalarTimes(c, k, point, mask);
    MulOn(c, k, Base(c));
    OnCurveFits(c, point.View());
    key := Key33(if point.y % 2 == 1 then 3 else 2, point.x);
  }

  /** hdnode_fill_public_key */
  method FillPublicKey(e: Env, node: HDNode)
    requires WellFormed(node.View())
    modifies node
    ensures node.View() == old(Filled(e, node.View()))
  {
    if node.publicKey.tag != 0 {
      return;
    }
    match node.curve.params
    case Some(c) =>
      node.publicKey := GetPublicKey33(c, node.privateKey);
    case None =>
      node.publicKey := Key33(1, e.otherPublic(node.curve.id, node.privateKey));
  }

  /** hdnode_fingerprint */
  method FingerprintOf(e: Env, node: HDNode) returns (f: u32)
    requires WellFormed(node.View())
    modifies node
    ensures node.View() == old(Filled(e, node.View())) && f == old(Fingerprint(e, node.View()))
  {
    FillPublicKey(e, node);
    f := e.digest(node.curve.id, node.publicKey);
  }

  /** One attempt of the private derivation: the sum of the keys, if the output is usable. */
  method TryKey(c: Curve, left: b256, a: b256) returns (ok: bool, b: b256)
    requires Setting(c) && a < c.order
    ensures ok <==> Usable(c, ForKey(a), left)
    ensures ok ==> b == (left + a) % c.order
  {
    if !(left < c.order) {
      return false, 0;
    }
    b := FullReduce(left + a, c.order);
    CongMod(left + a, c.order);
    CongSmall(b, (left + a) % c.order, c.order);
    return b != 0, b;
  }

  /** The loop stops at the first usable output and not before. */
  lemma StopsAt(e: Env, c: Curve, chainCode: b256, data: Data, t: Test, n: nat, k: nat)
    requires Setting(c) && First(e, c, chainCode, data, t, n) && k <= n
    ensures Usable(c, t, Output(e, chainCode, data, k).left) <==> k == n
    ensures Ends(e, c, chainCode, data, t) && Chosen(e, c, chainCode, data, t) == Output(e, chainCode, data, n)
  {
    FirstChosen(e, c, chainCode, data, t, n);
  }

  /** The retry loop of the private derivation: the first usable output, and the child's key. */
  method ChildKey(e: Env, c: Curve, chainCode: b256, first: Data, a: b256) returns (out: Halves, b: b256)
    requires Setting(c) && a < c.order && Ends(e, c, chainCode, first, ForKey(a))
    ensures out == Chosen(e, c, chainCode, first, ForKey(a)) && b == (out.left + a) % c.order
  {
    ghost var n: nat :| First(e, c, chainCode, first, ForKey(a), n);
    ghost var k := 0;
    var data := first;
    out := e.hmac(chainCode, data);
    var ok: bool;
    while true
      invariant 0 <= k <= n && out == Output(e, chainCode, first, k) && data.index == first.index
      decreases n - k
    {
      StopsAt(e, c, chainCode, first, ForKey(a), n, k);
      ok, b := TryKey(c, out.left, a);
      if ok {
        return;
      }
      data := Data(1, out.right, data.index);
      out := e.hmac(chainCode, data);
      k := k + 1;
    }
  }

  /** What is hashed; none for a non-hardened child on a curve without parameters. */
  method DataToHash(e: Env, inout: HDNode, i: u32) returns (data: Option<Data>)
    requires WellFormed(inout.View())
    modifies inout
    ensures data.None? <==> i < HARDENED && old(inout.curve.params.None?)
    ensures data.None? ==> inout.View() == old(inout.View())
    ensures data.Some? ==> data.value == old(ChildData(e, inout.View(), i))
    ensures inout.View() == old(inout.View()).(publicKey := inout.publicKey)
  {
    if i >= HARDENED {
      return Some(Data(0, inout.privateKey, i));
    }
    if inout.curve.params.None? {
      return None;
    }
    FillPublicKey(e, inout);
    return Some(Data(inout.publicKey.tag, inout.publicKey.body, i));
  }

  /** The child's private key and chain code. */
  method DeriveKey(e: Env, v: Node, data: Data) returns (out: Halves, key: b256)
    requires WellFormed(v)
    requires v.curve.params.Some? ==> Ends(e, v.curve.params.value, v.chainCode, data, ForKey(v.privateKey))
    ensures v.curve.params.Some? ==>
              && out == Chosen(e, v.curve.params.value, v.chainCode, data, ForKey(v.privateKey))
              && key == (out.left + v.privateKey) % v.curve.params.value.order
    ensures v.curve.params.None? ==> out == e.hmac(v.chainCode, data) && key == out.left
  {
    match v.curve.params
    case Some(c) =>
      out, key := ChildKey(e, c, v.chainCode, data, v.privateKey);
    case None =>
      out := e.hmac(v.chainCode, data);
      key := out.left;
  }

  /** hdnode_private_ckd */
  method PrivateCkd(e: Env, inout: HDNode, i: u32) returns (ok: bool)
    requires WellFormed(inout.View()) && PrivateEnds(e, inout.View(), i)
    modifies inout
    ensures ok <==> old(PrivateChild(e, inout.View(), i)).Some?
    ensures inout.View() == if ok then old(PrivateChild(e, inout.View(), i)).value else old(inout.View())
  {
    var data := DataToHash(e, inout, i);
    if data.None? {
      return false;
    }
    var out, key := DeriveKey(e, inout.View(), data.value);
    inout.privateKey := key;
    inout.chainCode := out.right;
    inout.depth := Next(inout.depth);
    inout.childNum := i;
    inout.publicKey := BLANK;
    return true;
  }

  /** One attempt of the public derivation. */
  method TryPoint(c: Curve, left: b256, parent: CurvePoint, child: CurvePoint, ghost q: Point) returns (ok: bool)
    requires Setting(c) && OnCurve(c, q) && q == parent.View() && parent != child
    modifies child
    ensures ok <==> Usable(c, ForPoint(q), left)
    ensures ok ==> child.View() == ChildPoint(c, q, left) && child.View().At?
  {
    if !(left < c.order) {
      return false;
    }
    AddMultipleOf(c, left, parent, child);
    return !(child.x == 0 && child.y == 0);
  }

  /** hdnode_public_ckd_cp: the child's point and chain code. */
  method PublicCkdPoint(c: Curve, e: Env, parent: CurvePoint, chainCode: b256, i: u32, child: CurvePoint)
    returns (ok: bool, childCode: b256)
    requires Setting(c) && OnCurve(c, parent.View()) && parent.View().At? && parent != child
    requires i < HARDENED ==> Ends(e, c, chainCode, PointData(c, parent.View(), i), ForPoint(parent.View()))
    modifies child
    ensures ok <==> i < HARDENED
    ensures ok ==> var out := Chosen(e, c, chainCode, PointData(c, parent.View(), i), ForPoint(parent.View()));
                   childCode == out.right && child.View() == ChildPoint(c, parent.View(), out.left) && child.View().At?
  {
    if i >= HARDENED {
      return false, 0;
    }
    OnCurveFits(c, parent.View());
    var data := Data(if parent.y % 2 == 1 then 3 else 2, parent.x, i);
    childCode := Retry(c, e, parent, chainCode, data, child, parent.View());
    return true, childCode;
  }

  /** The retry loop of the public derivation. */
  method Retry(c: Curve, e: Env, parent: CurvePoint, chainCode: b256, first: Data, child: CurvePoint,
               ghost q: Point) returns (childCode: b256)
    requires Setting(c) && OnCurve(c, q) && q == parent.View() && parent != child
    requires Ends(e, c, chainCode, first, ForPoint(q))
    modifies child
    ensures var out := Chosen(e, c, chainCode, first, ForPoint(q));
            childCode == out.right && child.View() == ChildPoint(c, q, out.left) && child.View().At?
  {
    ghost var n: nat :| First(e, c, chainCode, first, ForPoint(q), n);
    ghost var k := 0;
    var data := first;
    while true
      invariant Attempt(e, c, chainCode, first, q, n, k, data).Holds? && k <= n
      decreases n - k
    {
      var ok: bool;
      ok, childCode, data := TryOnce(e, c, parent, chainCode, data, child, first, q, n, k);
      if ok {
        return;
      }
      k := k + 1;
    }
  }

  /** The data after k failures, before the n-th output, which is the first usable one. */
  ghost function Attempt(e: Env, c: Curve, chainCode: b256, first: Data, q: Point, n: nat, k: nat, data: Data): Verdict {
    if && Setting(c) && First(e, c, chainCode, first, ForPoint(q), n) && k <= n && data.index == first.index
       && e.hmac(chainCode, data) == Output(e, chainCode, first, k)
    then Holds else Fails
  }

  /** One turn of the retry loop. */
  method TryOnce(e: Env, c: Curve, parent: CurvePoint, chainCode: b256, data: Data, child: CurvePoint,
                 ghost first: Data, ghost q: Point, ghost n: nat, ghost k: nat)
    returns (ok: bool, childCode: b256, next: Data)
    requires Attempt(e, c, chainCode, first, q, n, k, data).Holds?
    requires OnCurve(c, q) && q == parent.View() && parent != child
    modifies child
    ensures ok ==> var out := Chosen(e, c, chainCode, first, ForPoint(q));
                   childCode == out.right && child.View() == ChildPoint(c, q, out.left) && child.View().At?
    ensures !ok ==> k < n && Attempt(e, c, chainCode, first, q, n, k + 1, next).Holds?
  {
    var out := e.hmac(chainCode, data);
    StopsAt(e, c, chainCode, first, ForPoint(q), n, k);
    ok := TryPoint(c, out.left, parent, child, q);
    childCode := out.right;
    next := Data(1, out.right, data.index);
  }

  ghost function PointData(c: Curve, q: Point, i: u32): Data
    requires Valid(c) && OnCurve(c, q) && q.At?
  {
    OnCurveFits(c, q);
    Data(Encode(q).tag, Encode(q).body, i)
  }

  /** child := k G + parent */
  method AddMultipleOf(c: Curve, k: int, parent: CurvePoint, child: CurvePoint)
    requires Setting(c) && OnCurve(c, parent.View()) && parent != child && 0 <= k < c.order
    modifies child
    ensures child.View() == ChildPoint(c, parent.View(), k) && OnCurve(c, child.View())
  {
    var mask: int :| 0 < mask < c.prime by { assert 0 < 1 < c.prime; }
    ChildMeans(c, parent.View(), k);
    ScalarTimes(c, k, child, mask);
    PointAdd(c, parent, child);
  }

  /** A node's key as the reader of public keys sees it. */
  function AsPubKey(k: Key33): PubKey {
    if k.tag == 2 then Compressed(false, k.body) else if k.tag == 3 then Compressed(true, k.body) else Malformed
  }

  /**
   hdnode_public_ckd, on a node whose key is not in the uncompressed form, which does
   not fit a node.  It fails for a hardened index and a key that is not a point.
   */
  method PublicCkd(e: Env, inout: HDNode, i: u32) returns (ok: bool)
    requires inout.curve.params.Some? && Setting(inout.curve.params.value) && inout.curve.params.value.prime % 4 == 3
    requires inout.publicKey.tag != 4
    requires forall q :: i < HARDENED && Encodes(inout.curve.params.value, inout.publicKey, q) ==>
                         PublicEnds(e, inout.curve.params.value, inout.View(), q, i)
    modifies inout
    ensures ok <==> i < HARDENED && exists q :: Encodes(old(inout.curve.params.value), old(inout.publicKey), q)
    ensures ok ==> exists q :: PublicStep(e, old(inout.curve.params.value), old(inout.View()), q, i, inout.View())
    ensures !ok ==> inout.View() == old(inout.View())
  {
    var c := inout.curve.params.value;
    ghost var v := inout.View();
    var point := ReadPubkey(c, AsPubKey(inout.publicKey));
    if point.None? {
      assert forall q :: Encodes(c, v.publicKey, q) ==> Reads(c, AsPubKey(v.publicKey), q);
      return false;
    }
    ghost var q := point.value;
    OnCurveFits(c, q);
    OriginNotOnCurve(c);
    assert Encodes(c, v.publicKey, q);
    var parent := new CurvePoint(point.value.x, point.value.y);
    var child := new CurvePoint(0, 0);
    var code: b256;
    ok, code := PublicCkdPoint(c, e, parent, inout.chainCode, i, child);
    if !ok {
      return;
    }
    ChildMeans(c, q, Chosen(e, c, v.chainCode, PointData(c, q, i), ForPoint(q)).left);
    inout.chainCode := code;
    inout.privateKey := 0;
    inout.depth := Next(inout.depth);
    inout.childNum := i;
    OnCurveFits(c, child.View());
    inout.publicKey := Key33(if child.y % 2 == 1 then 3 else 2, child.x);
    assert PublicStep(e, c, v, q, i, inout.View());
  }
}
