// Batches, their sizes, the symbolic hash, and what sync points and signatures are made of.
//
// Hashes are terms: those of different messages differ by construction, which is the injectivity
// the protocol relies on.  A BLS signature is the pair of signer and signed message,
// and an aggregated signature is the set of the pairs that were added up.

module Batches {

  datatype Option<+T> = None | Some(value: T)

  function Min(a: int, b: int): int { if a <= b then a else b }

  function Max(a: int, b: int): int { if a >= b then a else b }

  /** The states a batch goes through, in order. */
  datatype State = Initialized | Sequenced | Locked | Finalized {
    function Rank(): nat {
      match this
      case Initialized => 0
      case Sequenced => 1
      case Locked => 2
      case Finalized => 3
    }

    predicate BeforeOrEqual(other: State) {
      Rank() <= other.Rank()
    }
  }

  newtype Byte = x: int | 0 <= x < 256

  /** The UTF-8 bytes of a batch of transactions. */
  type Body = seq<Byte>

  function SizeKb(body: Body): (kb: real)
    ensures kb >= 0.0
    ensures kb > 0.0 <==> body != []
  {
    |body| as real / 1024.0
  }

  /** The size of the first n bodies. */
  function KbTo(bodies: seq<Body>, n: nat): (kb: real)
    requires n <= |bodies|
    ensures kb >= 0.0
  {
    if n == 0 then 0.0 else KbTo(bodies, n - 1) + SizeKb(bodies[n - 1])
  }

  function TotalKb(bodies: seq<Body>): (kb: real)
    ensures kb >= 0.0
  {
    KbTo(bodies, |bodies|)
  }

  /** All bodies behind one another. */
  function Bytes(bodies: seq<Body>): seq<Byte> {
    if bodies == [] then [] else Bytes(bodies[..|bodies| - 1]) + bodies[|bodies| - 1]
  }

  /** A kilobyte is 1024 bytes. */
  lemma {:induction false} SizeInBytes(bodies: seq<Body>)
    ensures 1024.0 * TotalKb(bodies) == |Bytes(bodies)| as real
  {
    if bodies != [] {
      var most := bodies[..|bodies| - 1];
      SizeInBytes(most);
      KbToPrefix(most, bodies, |most|);
    }
  }

  datatype Hash = NoHash | BodyHash(body: Body) | LinkHash(chain: Hash, bodyHash: Hash)

  /** The chaining hash after a list of bodies: h(n) = hash(h(n-1) + hash(body(n))). */
  function ChainHash(bodies: seq<Body>): Hash {
    if bodies == [] then NoHash
    else LinkHash(ChainHash(bodies[..|bodies| - 1]), BodyHash(bodies[|bodies| - 1]))
  }

  type NodeId = string

  /** The message two-phase certificates are made over. */
  datatype SyncPoint = SyncPoint(state: State, index: int, chainingHash: Hash, timestamp: int, parent: int)

  datatype Signature = Signature(node: NodeId, point: SyncPoint)

  /** An aggregated signature and the attesting nodes that did not take part in it. */
  datatype Certificate = Certificate(signature: set<Signature>, nonsigners: seq<NodeId>)

  /** A certificate together with the sync point it is for. */
  datatype SignatureData = SignatureData(point: SyncPoint, cert: Certificate)

  datatype Batch = Batch(
    body: Body,
    chainingHash: Hash,
    parent: Option<int>,
    next: Option<int>,
    timestamp: Option<int>,
    lockedCert: Option<Certificate>,
    finalizedCert: Option<Certificate>)

  function NewBatch(body: Body, chainingHash: Hash): Batch {
    Batch(body, chainingHash, None, None, None, None, None)
  }

  function Bodies(batches: seq<Batch>): (bodies: seq<Body>)
    ensures |bodies| == |batches|
  {
    seq(|batches|, i requires 0 <= i < |batches| => batches[i].body)
  }

  function LastHash(batches: seq<Batch>): Hash {
    if batches == [] then NoHash else batches[|batches| - 1].chainingHash
  }

  function HashBefore(batches: seq<Batch>, i: nat): Hash
    requires i <= |batches|
  {
    if i == 0 then NoHash else batches[i - 1].chainingHash
  }

  /** Every entry's hash links its body to the hash of the entry before it. */
  ghost predicate Chained(batches: seq<Batch>) {
    forall i {:trigger HashBefore(batches, i)} | 0 <= i < |batches| ::
      batches[i].chainingHash == LinkHash(HashBefore(batches, i), BodyHash(batches[i].body))
  }

  /** So the last hash is the chaining hash of all the bodies. */
  lemma {:induction false} ChainedMeaning(batches: seq<Batch>)
    requires Chained(batches)
    ensures LastHash(batches) == ChainHash(Bodies(batches))
  {
    if batches != [] {
      var n := |batches| - 1;
      var rest := batches[..n];
      assert Chained(rest) by {
        assert forall i | 0 <= i < n :: rest[i] == batches[i] && HashBefore(rest, i) == HashBefore(batches, i);
      }
      ChainedMeaning(rest);
      assert HashBefore(batches, n) == LastHash(rest);
      assert Bodies(batches)[..n] == Bodies(rest);
    }
  }

  lemma BodiesSlice(batches: seq<Batch>, lo: int, hi: int)
    requires 0 <= lo <= hi <= |batches|
    ensures Bodies(batches[lo..hi]) == Bodies(batches)[lo..hi]
  {
  }

  lemma BodiesConcat(a: seq<Batch>, b: seq<Batch>)
    ensures Bodies(a + b) == Bodies(a) + Bodies(b)
  {
  }

  /** Sizes add up, body by body. */
  lemma {:induction false} KbToConcat(a: seq<Body>, b: seq<Body>, n: nat)
    requires n <= |b|
    ensures KbTo(a + b, |a| + n) == TotalKb(a) + KbTo(b, n)
  {
    if n == 0 {
      KbToPrefix(a, a + b, |a|);
    } else {
      KbToConcat(a, b, n - 1);
      assert (a + b)[|a| + n - 1] == b[n - 1];
    }
  }

  lemma {:induction false} KbToPrefix(a: seq<Body>, b: seq<Body>, n: nat)
    requires n <= |a| && n <= |b| && forall i | 0 <= i < n :: a[i] == b[i]
    ensures KbTo(a, n) == KbTo(b, n)
  {
    if n > 0 {
      KbToPrefix(a, b, n - 1);
    }
  }

  lemma TotalKbSnoc(bodies: seq<Body>, body: Body)
    ensures TotalKb(bodies + [body]) == TotalKb(bodies) + SizeKb(body)
  {
    KbToPrefix(bodies, bodies + [body], |bodies|);
  }

  /** Equal chaining hashes mean equal bodies all the way back to the first batch. */
  lemma {:induction false} ChainHashInjective(a: seq<Body>, b: seq<Body>)
    requires ChainHash(a) == ChainHash(b)
    ensures a == b
  {
    if a != [] && b != [] {
      ChainHashInjective(a[..|a| - 1], b[..|b| - 1]);
      assert a == a[..|a| - 1] + [a[|a| - 1]];
      assert b == b[..|b| - 1] + [b[|b| - 1]];
    }
  }

  /** k is where a list of bodies has to be cut so that it fits the limit. */
  ghost predicate IsLongestFit(bodies: seq<Body>, limitKb: real, k: int) {
    && 0 <= k <= |bodies|
    && (k > 0 ==> KbTo(bodies, k) <= limitKb)
    && (k < |bodies| ==> KbTo(bodies, k + 1) > limitKb)
  }

  lemma {:induction false} KbToMonotone(bodies: seq<Body>, j: nat, k: nat)
    requires j <= k <= |bodies|
    ensures KbTo(bodies, j) <= KbTo(bodies, k)
    decreases k
  {
    if j < k {
      KbToMonotone(bodies, j, k - 1);
    }
  }

  lemma FitsBefore(bodies: seq<Body>, limitKb: real, k: int, j: nat)
    requires IsLongestFit(bodies, limitKb, k)
    requires j <= |bodies| && KbTo(bodies, j) <= limitKb
    ensures j <= k
  {
    if k < j {
      KbToMonotone(bodies, k + 1, j);
    }
  }

  /** Every prefix that fits is at most as long as the cut, so the cut is unique. */
  lemma LongestFitIsLongest(bodies: seq<Body>, limitKb: real, k: int, j: int)
    requires IsLongestFit(bodies, limitKb, k)
    requires 0 <= j <= |bodies|
    ensures TotalKb(bodies[..j]) <= limitKb ==> j <= k
    ensures IsLongestFit(bodies, limitKb, j) ==> j == k
  {
    KbToPrefix(bodies[..j], bodies, j);
    if KbTo(bodies, j) <= limitKb {
      FitsBefore(bodies, limitKb, k, j);
    }
    if IsLongestFit(bodies, limitKb, j) && k > 0 {
      FitsBefore(bodies, limitKb, j, k);
    }
  }
}
