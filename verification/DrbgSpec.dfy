/** HMAC_DRBG, section 10.1.2 of NIST SP 800-90A. */
module DrbgSpec {
  import opened Arith
  import opened Words
  import opened Sha256Spec
  import opened HmacSpec

  datatype State = State(k: seq<u8>, v: seq<u8>)

  ghost predicate Sized(h: Sha, s: State) {
    Proper(h) && |s.k| == 32 && |s.v| == 32
  }

  ghost predicate Room(data: seq<u8>) {
    Short(97 + |data|)
  }

  /** One of the two halves of the update function. */
  ghost function Half(h: Sha, s: State, domain: u8, data: seq<u8>): (t: State)
    requires Sized(h, s) && Room(data)
    ensures Sized(h, t)
  {
    var k := Hmac(h, s.k, s.v + [domain] + data);
    State(k, Hmac(h, k, s.v))
  }

  /** HMAC_DRBG_Update, section 10.1.2.2 */
  ghost function Update(h: Sha, s: State, data: seq<u8>): (t: State)
    requires Sized(h, s) && Room(data)
    ensures Sized(h, t)
  {
    var t := Half(h, s, 0, data);
    if data == [] then t else Half(h, t, 1, data)
  }

  /** HMAC_DRBG_Instantiate, section 10.1.2.3 */
  ghost function Instantiate(h: Sha, seed: seq<u8>): (t: State)
    requires Proper(h) && Room(seed)
    ensures Sized(h, t)
  {
    Update(h, State(Zeros(32), Repeat(32, 1)), seed)
  }

  /** HMAC_DRBG_Reseed, section 10.1.2.4 */
  ghost function Reseed(h: Sha, s: State, entropy: seq<u8>, addin: seq<u8>): (t: State)
    requires Sized(h, s) && Room(entropy + addin)
    ensures Sized(h, t)
  {
    Update(h, s, entropy + addin)
  }

  /** V after n further values. */
  ghost function Value(h: Sha, s: State, n: nat): (v: seq<u8>)
    requires Sized(h, s)
    ensures |v| == 32
  {
    if n == 0 then s.v else Hmac(h, s.k, Value(h, s, n - 1))
  }

  ghost function Stream(h: Sha, s: State, n: nat): (t: seq<u8>)
    requires Sized(h, s)
    ensures |t| == 32 * n
  {
    if n == 0 then [] else Stream(h, s, n - 1) + Value(h, s, n)
  }

  /** HMAC_DRBG_Generate, section 10.1.2.5, without additional input */
  ghost function Generated(h: Sha, s: State, length: nat): (t: seq<u8>)
    requires Sized(h, s)
    ensures |t| == length
  {
    Stream(h, s, Calls(length))[..length]
  }

  ghost function Advanced(h: Sha, s: State, length: nat): (t: State)
    requires Sized(h, s)
    ensures Sized(h, t)
  {
    Update(h, State(s.k, Value(h, s, Calls(length))), [])
  }

  /** What hmac_drbg_reseed does: without entropy it stops half way. */
  ghost function Reseeded(h: Sha, s: State, entropy: seq<u8>, addin: seq<u8>): (t: State)
    requires Sized(h, s) && Room(entropy + addin)
    ensures Sized(h, t)
  {
    if entropy == [] then Half(h, s, 0, entropy + addin) else Reseed(h, s, entropy, addin)
  }

  // ------------------------------------------------------------ in the standard's terms

  /** Section 10.1.2.2, step by step. */
  lemma UpdateMeans(h: Sha, s: State, data: seq<u8>)
    requires Sized(h, s) && Room(data)
    ensures var k := Hmac(h, s.k, s.v + [0x00] + data); var v := Hmac(h, k, s.v);
            if data == [] then Update(h, s, data) == State(k, v)
            else
              var k' := Hmac(h, k, v + [0x01] + data);
              Update(h, s, data) == State(k', Hmac(h, k', v))
  {}

  /** What hmac_drbg_reseed does, step by step. */
  lemma ReseededMeans(h: Sha, s: State, entropy: seq<u8>, addin: seq<u8>)
    requires Sized(h, s) && Room(entropy + addin)
    ensures var d := entropy + addin; var k := Hmac(h, s.k, s.v + [0x00] + d); var v := Hmac(h, k, s.v);
            if entropy == [] then Reseeded(h, s, entropy, addin) == State(k, v)
            else
              var k' := Hmac(h, k, v + [0x01] + d);
              Reseeded(h, s, entropy, addin) == State(k', Hmac(h, k', v))
  {
    if entropy != [] { assert (entropy + addin)[0] == entropy[0]; }
    UpdateMeans(h, s, entropy + addin);
  }

  lemma {:induction false} StreamByte(h: Sha, s: State, n: nat, i: nat)
    requires Sized(h, s) && i < 32 * n
    ensures Stream(h, s, n)[i] == Value(h, s, i / 32 + 1)[i % 32]
    decreases n
  {
    DivMod(i, 32);
    if i < 32 * (n - 1) {
      StreamByte(h, s, n - 1, i);
    } else {
      DivModUnique(i, n - 1, i - 32 * (n - 1), 32);
    }
  }

  /**
   Section 10.1.2.5: the bytes of V_1, V_2, ..., where V_0 = V and V_(n+1) = HMAC(K, V_n), and
   then an update from the last of these.
   */
  lemma GenerateMeans(h: Sha, s: State, length: nat, i: nat, n: nat)
    requires Sized(h, s)
    ensures Value(h, s, 0) == s.v && Value(h, s, n + 1) == Hmac(h, s.k, Value(h, s, n))
    ensures i < length ==> Generated(h, s, length)[i] == Value(h, s, i / 32 + 1)[i % 32]
    ensures length <= 32 * n < length + 32 ==> Advanced(h, s, length) == Update(h, State(s.k, Value(h, s, n)), [])
  {
    if i < length { StreamByte(h, s, Calls(length), i); }
    if length <= 32 * n < length + 32 { CallsAre(length, n); }
  }
}
