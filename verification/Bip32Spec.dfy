/**
 Child key derivation as BIP-32 states it (section "Child key derivation (CKD)
 functions"), with the source's way of going on after an unusable HMAC output.  The
 hashes are arbitrary functions; byte strings of fixed length are numbers.
 */
module Bip32Spec {
  import opened Arith
  import opened Modular
  import opened Words
  import opened Wrappers
  import opened Primes
  import opened BignumSpec
  import opened CurveSpec
  import opened CurveClosure
  import opened CurveGroup
  import opened Keys
  import opened EcdsaSpec

  /** 32 bytes */
  type b256 = x: int | 0 <= x < TWO256

  /** 33 bytes of a public key; a first byte of 0 says that it is not filled in. */
  datatype Key33 = Key33(tag: u8, body: b256)

  const BLANK := Key33(0, 0)

  /** The hashed 37 bytes: one, 32 and four. */
  datatype Data = Data(tag: u8, body: b256, index: u32)

  /** The 64 bytes of an HMAC-SHA512 output. */
  datatype Halves = Halves(left: b256, right: b256)

  /** The functions that are left open: HMAC, the public keys of other curves, the fingerprint. */
  datatype Env = Env(hmac: (b256, Data) -> Halves, otherPublic: (nat, b256) -> b256, digest: (nat, Key33) -> u32)

  /** What the source knows of a curve; params is null for the 25519 curves. */
  datatype CurveInfo = CurveInfo(params: Option<Curve>, id: nat)

  datatype Node = Node(depth: u32, childNum: u32, chainCode: b256, privateKey: b256, publicKey: Key33, curve: CurveInfo)

  const HARDENED: u32 := 0x8000_0000

  function Next(depth: u32): u32 {
    (depth + 1) % 0x1_0000_0000
  }

  /** The output of attempt n: each one hashes the right half of the one before. */
  function Output(e: Env, chainCode: b256, data: Data, n: nat): Halves {
    if n == 0 then e.hmac(chainCode, data)
    else e.hmac(chainCode, Data(1, Output(e, chainCode, data, n - 1).right, data.index))
  }

  /** What makes an output usable: for a private parent key d, for a parent point q. */
  datatype Test = ForKey(d: int) | ForPoint(q: Point)

  ghost predicate Usable(c: Curve, t: Test, left: int)
    requires Setting(c)
  {
    0 <= left < c.order &&
    match t
    case ForKey(d) => (left + d) % c.order != 0
    case ForPoint(q) => OnCurve(c, q) && ChildPoint(c, q, left) != Infinity
  }

  ghost function ChildIn(depth: nat, c: Curve, q: Point, left: int): Point
    requires Setting(c) && OnCurve(c, q)
  {
    MulOn(c, left, Base(c));
    if depth > 0 then ChildIn(depth - 1, c, q, left) else Add(c, q, Multiple(c, left, Base(c)))
  }

  /** left G + q; folded (see Arith), ChildMeans unfolds it. */
  ghost function ChildPoint(c: Curve, q: Point, left: int): Point
    requires Setting(c) && OnCurve(c, q)
  {
    ChildIn(FOLDS, c, q, left)
  }

  lemma {:induction false} ChildInMeans(depth: nat, c: Curve, q: Point, left: int)
    requires Setting(c) && OnCurve(c, q)
    ensures OnCurve(c, Multiple(c, left, Base(c)))
    ensures ChildIn(depth, c, q, left) == Add(c, q, Multiple(c, left, Base(c)))
  {
    MulOn(c, left, Base(c));
    if depth > 0 { ChildInMeans(depth - 1, c, q, left); }
  }

  lemma ChildMeans(c: Curve, q: Point, left: int)
    requires Setting(c) && OnCurve(c, q)
    ensures OnCurve(c, Multiple(c, left, Base(c)))
    ensures ChildPoint(c, q, left) == Add(c, q, Multiple(c, left, Base(c)))
    ensures OnCurve(c, ChildPoint(c, q, left))
  {
    MulOn(c, left, Base(c));
    AddOnCurve(c, q, Multiple(c, left, Base(c)));
    ChildInMeans(FOLDS, c, q, left);
  }

  /** Attempt n is the first with a usable output. */
  ghost predicate First(e: Env, c: Curve, chainCode: b256, data: Data, t: Test, n: nat)
    requires Setting(c)
  {
    && Usable(c, t, Output(e, chainCode, data, n).left)
    && forall m: nat :: m < n ==> !Usable(c, t, Output(e, chainCode, data, m).left)
  }

  /** Some attempt is usable: the retry loop ends. */
  ghost predicate Ends(e: Env, c: Curve, chainCode: b256, data: Data, t: Test)
    requires Setting(c)
  {
    exists n: nat :: First(e, c, chainCode, data, t, n)
  }

  ghost function Chosen(e: Env, c: Curve, chainCode: b256, data: Data, t: Test): Halves
    requires Setting(c) && Ends(e, c, chainCode, data, t)
  {
    var n: nat :| First(e, c, chainCode, data, t, n);
    Output(e, chainCode, data, n)
  }

  lemma FirstChosen(e: Env, c: Curve, chainCode: b256, data: Data, t: Test, n: nat)
    requires Setting(c) && First(e, c, chainCode, data, t, n)
    ensures Ends(e, c, chainCode, data, t) && Chosen(e, c, chainCode, data, t) == Output(e, chainCode, data, n)
  {
    var m: nat :| First(e, c, chainCode, data, t, m) && Chosen(e, c, chainCode, data, t) == Output(e, chainCode, data, m);
    assert m == n;
  }

  lemma {:induction false} SomeFirst(e: Env, c: Curve, chainCode: b256, data: Data, t: Test, n: nat)
    requires Setting(c) && Usable(c, t, Output(e, chainCode, data, n).left)
    ensures Ends(e, c, chainCode, data, t)
  {
    if m: nat :| m < n && Usable(c, t, Output(e, chainCode, data, m).left) {
      SomeFirst(e, c, chainCode, data, t, m);
    } else {
      assert First(e, c, chainCode, data, t, n);
    }
  }

  // ------------------------------------------------------------ one derivation

  /** A node's key is below the order. */
  ghost predicate WellFormed(v: Node) {
    v.curve.params.Some? ==> Setting(v.curve.params.value) && v.privateKey < v.curve.params.value.order
  }

  /** The compressed encoding, (0, 0) standing for infinity. */
  function Encode(q: Point): Key33
    requires q.At? ==> 0 <= q.x < TWO256
  {
    if q.Infinity? then Key33(2, 0) else Key33(if q.y % 2 == 1 then 3 else 2, q.x)
  }

  lemma OnCurveFits(c: Curve, q: Point)
    requires Valid(c) && OnCurve(c, q)
    ensures q.At? ==> 0 <= q.x < TWO256 && 0 <= q.y < TWO256
  {}

  ghost function PublicOf(e: Env, v: Node): Key33
    requires WellFormed(v)
  {
    match v.curve.params
    case Some(c) => EncodedMultiple(c, v.privateKey)
    case None => Key33(1, e.otherPublic(v.curve.id, v.privateKey))
  }

  ghost function EncodedMultiple(c: Curve, k: int): Key33
    requires Setting(c)
  {
    MulOn(c, k, Base(c));
    OnCurveFits(c, Multiple(c, k, Base(c)));
    Encode(Multiple(c, k, Base(c)))
  }

  /** The node with its public key filled in. */
  ghost function Filled(e: Env, v: Node): Node
    requires WellFormed(v)
  {
    if v.publicKey.tag != 0 then v else v.(publicKey := PublicOf(e, v))
  }

  ghost function Fingerprint(e: Env, v: Node): u32
    requires WellFormed(v)
  {
    e.digest(v.curve.id, Filled(e, v).publicKey)
  }

  /** What is hashed to derive child i. */
  ghost function ChildData(e: Env, v: Node, i: u32): Data
    requires WellFormed(v)
  {
    if i >= HARDENED then Data(0, v.privateKey, i)
    else var k := Filled(e, v).publicKey; Data(k.tag, k.body, i)
  }

  /** The hashed data hold the index, and for a hardened child 0 and the private key, else the public key. */
  lemma ChildDataMeans(e: Env, v: Node, i: u32)
    requires WellFormed(v)
    ensures ChildData(e, v, i).index == i
    ensures i >= 0x8000_0000 ==> ChildData(e, v, i).tag == 0 && ChildData(e, v, i).body == v.privateKey
    ensures i < 0x8000_0000 && v.publicKey.tag != 0 ==>
              ChildData(e, v, i).tag == v.publicKey.tag && ChildData(e, v, i).body == v.publicKey.body
    ensures i < 0x8000_0000 && v.publicKey.tag == 0 ==>
              ChildData(e, v, i).tag == PublicOf(e, v).tag && ChildData(e, v, i).body == PublicOf(e, v).body
  {}

  /** Equal data come from equal indices, and of hardened children only from equal private keys. */
  lemma ChildDataApart(e: Env, v: Node, i: u32, w: Node, j: u32)
    requires WellFormed(v) && WellFormed(w) && ChildData(e, v, i) == ChildData(e, w, j)
    ensures i == j && (i >= 0x8000_0000 ==> v.privateKey == w.privateKey)
  {
    ChildDataMeans(e, v, i);
    ChildDataMeans(e, w, j);
  }

  /** The private derivation of child i ends. */
  ghost predicate PrivateEnds(e: Env, v: Node, i: u32)
    requires WellFormed(v)
  {
    v.curve.params.Some? ==>
      Ends(e, v.curve.params.value, v.chainCode, ChildData(e, v, i), ForKey(v.privateKey))
  }

  /** The child node; none for a non-hardened child on a curve without parameters. */
  ghost function PrivateChild(e: Env, v: Node, i: u32): Option<Node>
    requires WellFormed(v) && PrivateEnds(e, v, i)
  {
    match v.curve.params
    case Some(c) =>
      var out := Chosen(e, c, v.chainCode, ChildData(e, v, i), ForKey(v.privateKey));
      ChildKeyBelow(c, out.left + v.privateKey);
      Some(Node(Next(v.depth), i, out.right, (out.left + v.privateKey) % c.order, BLANK, v.curve))
    case None =>
      if i < HARDENED then None
      else
        var out := e.hmac(v.chainCode, ChildData(e, v, i));
        Some(Node(Next(v.depth), i, out.right, out.left, BLANK, v.curve))
  }

  lemma ChildKeyBelow(c: Curve, k: int)
    requires Setting(c)
    ensures 0 <= k % c.order < c.order < TWO256
  {
    CongMod(k, c.order);
  }

  /** Children are well-formed, and have a nonzero key below the order. */
  lemma PrivateChildKey(e: Env, v: Node, i: u32)
    requires WellFormed(v) && PrivateEnds(e, v, i) && PrivateChild(e, v, i).Some?
    ensures var w := PrivateChild(e, v, i).value;
            WellFormed(w) && w.publicKey == BLANK && (w.curve.params.Some? ==> w.privateKey != 0)
  {
    if v.curve.params.Some? {
      var c := v.curve.params.value;
      ChosenUsable(e, c, v.chainCode, ChildData(e, v, i), ForKey(v.privateKey));
      ChildKeyBelow(c, Chosen(e, c, v.chainCode, ChildData(e, v, i), ForKey(v.privateKey)).left + v.privateKey);
    }
  }

  lemma ChosenUsable(e: Env, c: Curve, chainCode: b256, data: Data, t: Test)
    requires Setting(c) && Ends(e, c, chainCode, data, t)
    ensures Usable(c, t, Chosen(e, c, chainCode, data, t).left)
  {
    var n: nat :| First(e, c, chainCode, data, t, n);
    FirstChosen(e, c, chainCode, data, t, n);
  }

  /** The point that a filled-in public key encodes. */
  ghost predicate Encodes(c: Curve, k: Key33, q: Point) {
    (k.tag == 2 || k.tag == 3) && WithParity(c, k.body, k.tag == 3, q)
  }

  ghost predicate PublicEnds(e: Env, c: Curve, v: Node, q: Point, i: u32)
    requires Setting(c)
  {
    Ends(e, c, v.chainCode, Data(v.publicKey.tag, v.publicKey.body, i), ForPoint(q))
  }

  /** The public derivation of child i of a node whose public key encodes q. */
  ghost function PublicChild(e: Env, c: Curve, v: Node, q: Point, i: u32): Node
    requires Setting(c) && OnCurve(c, q) && PublicEnds(e, c, v, q, i)
  {
    var data := Data(v.publicKey.tag, v.publicKey.body, i);
    var out := Chosen(e, c, v.chainCode, data, ForPoint(q));
    ChildMeans(c, q, out.left);
    OnCurveFits(c, ChildPoint(c, q, out.left));
    Node(Next(v.depth), i, out.right, 0, Encode(ChildPoint(c, q, out.left)), v.curve)
  }

  // ------------------------------------------------------------ in the terms of BIP-32

  /** Each failed output is hashed again, behind a 1, with the same index. */
  lemma {:induction false} OutputsMean(e: Env, chainCode: b256, data: Data, outs: seq<Halves>, n: nat)
    requires n < |outs| && outs[0] == e.hmac(chainCode, data)
    requires forall j :: 0 <= j < |outs| - 1 ==> outs[j + 1] == e.hmac(chainCode, Data(1, outs[j].right, data.index))
    ensures Output(e, chainCode, data, n) == outs[n]
    decreases n
  {
    if n > 0 { OutputsMean(e, chainCode, data, outs, n - 1); }
  }

  /**
   "Private parent key to private child key": the left half is added to the key modulo the
   order and the right half is the chain code; a left half that is not below the order, and a
   key 0, are passed over.
   */
  lemma PrivateChildMeans(e: Env, v: Node, i: u32, c: Curve, outs: seq<Halves>, n: nat)
    requires WellFormed(v) && v.curve.params == Some(c) && |outs| == n + 1
    requires outs[0] == e.hmac(v.chainCode, ChildData(e, v, i))
    requires forall j :: 0 <= j < n ==> outs[j + 1] == e.hmac(v.chainCode, Data(1, outs[j].right, i))
    requires forall j :: 0 <= j < n ==> outs[j].left >= c.order || (outs[j].left + v.privateKey) % c.order == 0
    requires outs[n].left < c.order && (outs[n].left + v.privateKey) % c.order != 0
    ensures PrivateEnds(e, v, i) && 0 <= (outs[n].left + v.privateKey) % c.order < TWO256
    ensures PrivateChild(e, v, i) ==
            Some(Node((v.depth + 1) % 0x1_0000_0000, i, outs[n].right, (outs[n].left + v.privateKey) % c.order, Key33(0, 0), v.curve))
  {
    var data, t := ChildData(e, v, i), ForKey(v.privateKey);
    ChildDataMeans(e, v, i);
    OutputsMean(e, v.chainCode, data, outs, n);
    forall m: nat | m < n ensures !Usable(c, t, Output(e, v.chainCode, data, m).left) {
      OutputsMean(e, v.chainCode, data, outs, m);
    }
    assert First(e, c, v.chainCode, data, t, n);
    FirstChosen(e, c, v.chainCode, data, t, n);
    ChildKeyBelow(c, outs[n].left + v.privateKey);
  }

  /** "Public parent key to public child key", likewise with points. */
  lemma PublicChildMeans(e: Env, c: Curve, v: Node, q: Point, i: u32, outs: seq<Halves>, n: nat, child: Point)
    requires Setting(c) && OnCurve(c, q) && |outs| == n + 1
    requires outs[0] == e.hmac(v.chainCode, Data(v.publicKey.tag, v.publicKey.body, i))
    requires forall j :: 0 <= j < n ==> outs[j + 1] == e.hmac(v.chainCode, Data(1, outs[j].right, i))
    requires forall j :: 0 <= j < n ==> outs[j].left >= c.order || ChildPoint(c, q, outs[j].left) == Infinity
    requires outs[n].left < c.order && child == ChildPoint(c, q, outs[n].left) && child.At?
    ensures PublicEnds(e, c, v, q, i) && OnCurve(c, Multiple(c, outs[n].left, Base(c)))
    ensures child == Add(c, q, Multiple(c, outs[n].left, Base(c))) && 0 <= child.x < TWO256
    ensures PublicChild(e, c, v, q, i) ==
            Node((v.depth + 1) % 0x1_0000_0000, i, outs[n].right, 0, Key33(2 + child.y % 2, child.x), v.curve)
  {
    var data, t := Data(v.publicKey.tag, v.publicKey.body, i), ForPoint(q);
    OutputsMean(e, v.chainCode, data, outs, n);
    forall m: nat | m < n ensures !Usable(c, t, Output(e, v.chainCode, data, m).left) {
      OutputsMean(e, v.chainCode, data, outs, m);
    }
    assert First(e, c, v.chainCode, data, t, n);
    FirstChosen(e, c, v.chainCode, data, t, n);
    ChildMeans(c, q, outs[n].left);
    OnCurveFits(c, child);
  }

  /** The serialized point: 2 or 3 by the parity of y, and x; the public key of a node that has none is its key's point. */
  lemma PublicOfMeans(e: Env, v: Node, c: Curve)
    requires WellFormed(v) && v.curve.params == Some(c) && v.privateKey != 0
    ensures var q := Multiple(c, v.privateKey, Base(c));
      q.At? && 0 <= q.x < TWO256 && PublicOf(e, v) == Key33(2 + q.y % 2, q.x)
    ensures Fingerprint(e, v) == e.digest(v.curve.id, if v.publicKey.tag != 0 then v.publicKey else PublicOf(e, v))
  {
    NonceIsPoint(c, v.privateKey);
    OnCurveFits(c, Multiple(c, v.privateKey, Base(c)));
  }

  // ------------------------------------------------------------ the two derivations agree

  /** left G + d G = (left + d) G */
  lemma ChildOfMultiple(c: Curve, d: int, left: int)
    requires Setting(c)
    ensures OnCurve(c, Multiple(c, d, Base(c)))
    ensures ChildPoint(c, Multiple(c, d, Base(c)), left) == Multiple(c, left + d, Base(c))
    ensures Multiple(c, (left + d) % c.order, Base(c)) == Multiple(c, left + d, Base(c))
    ensures ChildPoint(c, Multiple(c, d, Base(c)), left) == Infinity <==> (left + d) % c.order == 0
  {
    var g, n, s := Base(c), c.order, left + d;
    MulAdd(c, d, left, g);
    ChildMeans(c, Multiple(c, d, g), left);
    assert d + left == s;
    CongMod(s, n);
    MulCong(c, s % n, s, g);
    MulZero(c, s, g);
    ZeroRemainder(s, n);
  }

  lemma ZeroRemainder(s: int, n: int)
    requires n > 0
    ensures Cong(s, 0, n) <==> s % n == 0
  {
    CongMod(s, n);
    if Cong(s, 0, n) { CongTrans(s % n, s, 0, n); SmallZero(s % n, n); }
  }

  /** An output is usable for the key exactly when it is for the key's point. */
  lemma UsableAgree(c: Curve, d: int, left: int)
    requires Setting(c)
    ensures Usable(c, ForKey(d), left) <==> Usable(c, ForPoint(Multiple(c, d, Base(c))), left)
  {
    ChildOfMultiple(c, d, left);
  }

  lemma FirstAgree(e: Env, c: Curve, chainCode: b256, data: Data, d: int, n: nat)
    requires Setting(c)
    ensures First(e, c, chainCode, data, ForKey(d), n) <==> First(e, c, chainCode, data, ForPoint(Multiple(c, d, Base(c))), n)
  {
    UsableAgree(c, d, Output(e, chainCode, data, n).left);
    forall m: nat | m < n
      ensures Usable(c, ForKey(d), Output(e, chainCode, data, m).left)
         <==> Usable(c, ForPoint(Multiple(c, d, Base(c))), Output(e, chainCode, data, m).left)
    {
      UsableAgree(c, d, Output(e, chainCode, data, m).left);
    }
  }

  /** Both retry loops end on the same output, or neither ends. */
  lemma ChosenAgree(e: Env, c: Curve, chainCode: b256, data: Data, d: int)
    requires Setting(c)
    ensures var q := Multiple(c, d, Base(c));
      && (Ends(e, c, chainCode, data, ForKey(d)) <==> Ends(e, c, chainCode, data, ForPoint(q)))
      && (Ends(e, c, chainCode, data, ForKey(d)) ==>
            Chosen(e, c, chainCode, data, ForKey(d)) == Chosen(e, c, chainCode, data, ForPoint(q)))
  {
    var q := Multiple(c, d, Base(c));
    if Ends(e, c, chainCode, data, ForKey(d)) {
      var n: nat :| First(e, c, chainCode, data, ForKey(d), n);
      FirstAgree(e, c, chainCode, data, d, n);
      FirstChosen(e, c, chainCode, data, ForKey(d), n);
      FirstChosen(e, c, chainCode, data, ForPoint(q), n);
    } else if Ends(e, c, chainCode, data, ForPoint(q)) {
      var n: nat :| First(e, c, chainCode, data, ForPoint(q), n);
      FirstAgree(e, c, chainCode, data, d, n);
    }
  }

  /** The public half of a node: the filled-in public key and no private key. */
  ghost function Neutered(e: Env, v: Node): Node
    requires WellFormed(v)
  {
    Filled(e, v).(privateKey := 0)
  }

  /** A node on a curve with parameters, with a private key and no other public key than its own. */
  ghost predicate Genuine(e: Env, v: Node) {
    && WellFormed(v) && v.curve.params.Some? && v.privateKey != 0
    && (v.publicKey.tag != 0 ==> v.publicKey == PublicOf(e, v))
  }

  /** The public key of a genuine node encodes its key's point. */
  lemma GenuineEncodes(e: Env, v: Node)
    requires Genuine(e, v)
    ensures Filled(e, v).publicKey == EncodedMultiple(v.curve.params.value, v.privateKey)
    ensures Encodes(v.curve.params.value, Filled(e, v).publicKey,
                    Multiple(v.curve.params.value, v.privateKey, Base(v.curve.params.value)))
  {
    NonceIsPoint(v.curve.params.value, v.privateKey);
  }

  /** For a genuine node the first byte is 0 exactly when the child is hardened. */
  lemma HardenedTag(e: Env, v: Node, i: u32)
    requires Genuine(e, v)
    ensures ChildData(e, v, i).tag == 0 <==> i >= 0x8000_0000
    ensures i < 0x8000_0000 ==> Encodes(v.curve.params.value, Key33(ChildData(e, v, i).tag, ChildData(e, v, i).body),
                                        Multiple(v.curve.params.value, v.privateKey, Base(v.curve.params.value)))
  {
    ChildDataMeans(e, v, i);
    GenuineEncodes(e, v);
  }

  /** A 33-byte key stands for at most one point. */
  lemma EncodesUnique(c: Curve, k: Key33, q: Point, r: Point)
    requires Valid(c) && Encodes(c, k, q) && Encodes(c, k, r)
    ensures q == r
  {
    ParityUnique(c, k.body, k.tag == 3, q, r);
  }

  ghost function PublicPoint(v: Node): (q: Point)
    requires WellFormed(v) && v.curve.params.Some?
    ensures OnCurve(v.curve.params.value, q)
  {
    MulOn(v.curve.params.value, v.privateKey, Base(v.curve.params.value));
    Multiple(v.curve.params.value, v.privateKey, Base(v.curve.params.value))
  }

  /** For a non-hardened index both derivations hash the same data, and end together. */
  lemma EndTogether(e: Env, v: Node, i: u32)
    requires Genuine(e, v) && i < HARDENED
    ensures Encodes(v.curve.params.value, Neutered(e, v).publicKey, PublicPoint(v))
    ensures PrivateEnds(e, v, i) <==> PublicEnds(e, v.curve.params.value, Neutered(e, v), PublicPoint(v), i)
  {
    GenuineEncodes(e, v);
    ChosenAgree(e, v.curve.params.value, v.chainCode, ChildData(e, v, i), v.privateKey);
  }

  /** The child's key belongs to the child's point. */
  lemma ChildKeysAgree(e: Env, v: Node, i: u32)
    requires Genuine(e, v) && i < HARDENED && PrivateEnds(e, v, i)
    ensures PrivateChild(e, v, i).Some? && Genuine(e, PrivateChild(e, v, i).value)
    ensures var c := v.curve.params.value; var out := Chosen(e, c, v.chainCode, ChildData(e, v, i), ForKey(v.privateKey));
            PublicPoint(PrivateChild(e, v, i).value) == ChildPoint(c, PublicPoint(v), out.left)
  {
    var c := v.curve.params.value;
    PrivateChildKey(e, v, i);
    ChildOfMultiple(c, v.privateKey, Chosen(e, c, v.chainCode, ChildData(e, v, i), ForKey(v.privateKey)).left);
  }

  /**
   For a non-hardened index the private derivation ends exactly when the public one does,
   and then the public half of the private child is the public child of the public half.
   */
  lemma DerivationsCommute(e: Env, v: Node, i: u32)
    requires Genuine(e, v) && i < HARDENED
    ensures var c := v.curve.params.value;
      && Encodes(c, Neutered(e, v).publicKey, PublicPoint(v))
      && (PrivateEnds(e, v, i) <==> PublicEnds(e, c, Neutered(e, v), PublicPoint(v), i))
      && (PrivateEnds(e, v, i) ==>
            && PrivateChild(e, v, i).Some? && Genuine(e, PrivateChild(e, v, i).value)
            && Neutered(e, PrivateChild(e, v, i).value) == PublicChild(e, c, Neutered(e, v), PublicPoint(v), i))
  {
    EndTogether(e, v, i);
    GenuineEncodes(e, v);
    if PrivateEnds(e, v, i) {
      ChosenAgree(e, v.curve.params.value, v.chainCode, ChildData(e, v, i), v.privateKey);
      ChildKeysAgree(e, v, i);
      GenuineEncodes(e, PrivateChild(e, v, i).value);
    }
  }

  // ------------------------------------------------------------ paths

  /** Whether a derivation succeeded, and the node it left. */
  datatype Outcome = Outcome(ok: bool, node: Node)

  /** Every derivation along the path ends, up to the first that fails. */
  ghost predicate PathEnds(e: Env, v: Node, path: seq<u32>)
    requires WellFormed(v)
    decreases path
  {
    path == [] ||
    (&& PrivateEnds(e, v, path[0])
     && (PrivateChild(e, v, path[0]).Some? ==> WellFormedChild(e, v, path[0]) && PathEnds(e, PrivateChild(e, v, path[0]).value, path[1..])))
  }

  ghost predicate WellFormedChild(e: Env, v: Node, i: u32)
    requires WellFormed(v) && PrivateEnds(e, v, i) && PrivateChild(e, v, i).Some?
    ensures WellFormedChild(e, v, i) && WellFormed(PrivateChild(e, v, i).value)
  {
    PrivateChildKey(e, v, i);
    true
  }

  /** Deriving along a path, one child after the other; a failure leaves the node it met. */
  ghost function Steps(e: Env, v: Node, path: seq<u32>): (o: Outcome)
    requires WellFormed(v) && PathEnds(e, v, path)
    ensures WellFormed(o.node) && o.node.curve == v.curve
    decreases path
  {
    if path == [] then Outcome(true, v)
    else
      match PrivateChild(e, v, path[0])
      case None => Outcome(false, v)
      case Some(w) => Steps(e, w, path[1..])
  }

  /** No step leaves the node, and one step is a derivation. */
  lemma StepsMean(e: Env, v: Node, i: u32)
    requires WellFormed(v) && PrivateEnds(e, v, i)
    ensures PathEnds(e, v, []) && Steps(e, v, []) == Outcome(true, v)
    ensures PathEnds(e, v, [i]) && Steps(e, v, [i]) ==
              if PrivateChild(e, v, i).Some? then Outcome(true, PrivateChild(e, v, i).value) else Outcome(false, v)
  {
    if PrivateChild(e, v, i).Some? {
      PrivateChildKey(e, v, i);
      var w := PrivateChild(e, v, i).value;
      assert [i][1..] == [] && PathEnds(e, w, []) && Steps(e, w, []) == Outcome(true, w);
    }
  }

  /** A path can be cut: its first part ends too, and the rest goes on from there. */
  lemma {:induction false} StepsCut(e: Env, v: Node, path: seq<u32>, k: nat)
    requires WellFormed(v) && PathEnds(e, v, path) && k <= |path|
    ensures PathEnds(e, v, path[..k])
    ensures var o := Steps(e, v, path[..k]);
            if o.ok then PathEnds(e, o.node, path[k..]) && Steps(e, v, path) == Steps(e, o.node, path[k..])
            else Steps(e, v, path) == o
    decreases k
  {
    if k == 0 {
      assert path[..0] == [] && path[0..] == path;
    } else if PrivateChild(e, v, path[0]).Some? {
      StepsCut(e, PrivateChild(e, v, path[0]).value, path[1..], k - 1);
      assert path[..k][1..] == path[1..][..k - 1];
      assert path[k..] == path[1..][k - 1..];
    }
  }

  /** w is the public derivation of child i of v. */
  ghost predicate PublicStep(e: Env, c: Curve, v: Node, q: Point, i: u32, w: Node)
    requires Setting(c)
  {
    && i < HARDENED && Encodes(c, v.publicKey, q) && PublicEnds(e, c, v, q, i)
    && w == PublicChild(e, c, v, q, i)
  }

  /** w is the public derivation of the path from v. */
  ghost predicate PublicPath(e: Env, c: Curve, v: Node, path: seq<u32>, w: Node)
    requires Setting(c)
    decreases path
  {
    if path == [] then w == v
    else exists q, u :: PublicStep(e, c, v, q, path[0], u) && PublicPath(e, c, u, path[1..], w)
  }

  lemma StepCommutes(e: Env, v: Node, i: u32)
    requires Genuine(e, v) && i < HARDENED && PrivateEnds(e, v, i)
    ensures PrivateChild(e, v, i).Some? && Genuine(e, PrivateChild(e, v, i).value)
    ensures PrivateChild(e, v, i).value.curve == v.curve
    ensures PublicStep(e, v.curve.params.value, Neutered(e, v), PublicPoint(v), i,
                       Neutered(e, PrivateChild(e, v, i).value))
  {
    DerivationsCommute(e, v, i);
  }

  /** Along any non-hardened path the public half of the private derivation is the public derivation. */
  lemma {:induction false} PathsCommute(e: Env, v: Node, path: seq<u32>)
    requires Genuine(e, v) && PathEnds(e, v, path) && forall j :: 0 <= j < |path| ==> path[j] < HARDENED
    ensures Steps(e, v, path).ok && Genuine(e, Steps(e, v, path).node)
    ensures PublicPath(e, v.curve.params.value, Neutered(e, v), path, Neutered(e, Steps(e, v, path).node))
    decreases path
  {
    if path != [] {
      StepCommutes(e, v, path[0]);
      PathsCommute(e, PrivateChild(e, v, path[0]).value, path[1..]);
    }
  }
}
