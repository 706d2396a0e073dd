/** Public keys identify wallets. A key is an opaque 32-byte string; the only
    structure the ledger relies on is equality and, for listing wallets, the
    byte-wise (lexicographic) order in which the storage enumerates its keys. */
module Keys {

  const KEY_LENGTH: nat := 32

  /** An Ed25519 public key: exactly 32 bytes. */
  type PublicKey = k: seq<bv8> | |k| == KEY_LENGTH witness seq(KEY_LENGTH, _ => 0)

  /** Strict lexicographic order on byte strings of equal length (a proper
      prefix is not ordered below its extensions). */
  predicate Less(a: seq<bv8>, b: seq<bv8>)
    decreases |a|
  {
    |a| > 0 && |b| > 0 && (a[0] < b[0] || (a[0] == b[0] && Less(a[1..], b[1..])))
  }

  lemma {:induction false} LessIrreflexive(a: seq<bv8>)
    ensures !Less(a, a)
    decreases |a|
  {
    if |a| > 0 {
      LessIrreflexive(a[1..]);
    }
  }

  lemma {:induction false} LessAsymmetric(a: seq<bv8>, b: seq<bv8>)
    requires Less(a, b)
    ensures !Less(b, a)
    decreases |a|
  {
    if a[0] == b[0] {
      LessAsymmetric(a[1..], b[1..]);
    }
  }

  lemma {:induction false} LessTransitive(a: seq<bv8>, b: seq<bv8>, c: seq<bv8>)
    requires Less(a, b) && Less(b, c)
    ensures Less(a, c)
    decreases |a|
  {
    if a[0] == b[0] && b[0] == c[0] {
      LessTransitive(a[1..], b[1..], c[1..]);
    }
  }

  /** Two distinct strings of the same length are always ordered one way or the other. */
  lemma {:induction false} LessTotal(a: seq<bv8>, b: seq<bv8>)
    requires |a| == |b| && a != b
    ensures Less(a, b) || Less(b, a)
    decreases |a|
  {
    if a[0] == b[0] {
      assert a == [a[0]] + a[1..] && b == [b[0]] + b[1..];
      LessTotal(a[1..], b[1..]);
    }
  }

  ghost predicate IsLeast(k: PublicKey, s: set<PublicKey>)
  {
    k in s && forall j :: j in s && j != k ==> Less(k, j)
  }

  lemma {:induction false} LeastExists(s: set<PublicKey>)
    requires s != {}
    ensures exists k :: IsLeast(k, s)
    decreases s
  {
    var x :| x in s;
    if s == {x} {
      assert IsLeast(x, s);
    } else {
      LeastExists(s - {x});
      var m: PublicKey :| IsLeast(m, s - {x});
      LessTotal(x, m);
      if Less(x, m) {
        forall j | j in s && j != x
          ensures Less(x, j)
        {
          if j != m {
            LessTransitive(x, m, j);
          }
        }
        assert IsLeast(x, s);
      } else {
        assert IsLeast(m, s);
      }
    }
  }

  /** The smallest key of a non-empty set. */
  ghost function Least(s: set<PublicKey>): (k: PublicKey)
    requires s != {}
    ensures IsLeast(k, s)
  {
    LeastExists(s);
    var k :| IsLeast(k, s);
    k
  }

  ghost predicate StrictlyAscending(ks: seq<PublicKey>)
  {
    forall i, j :: 0 <= i < j < |ks| ==> Less(ks[i], ks[j])
  }

  /** The keys of `s`, each exactly once, in ascending byte order. */
  ghost function Ascending(s: set<PublicKey>): (ks: seq<PublicKey>)
    ensures |ks| == |s|
    ensures forall k :: k in ks <==> k in s
    ensures StrictlyAscending(ks)
    decreases s
  {
    if s == {} then []
    else
      var k := Least(s);
      [k] + Ascending(s - {k})
  }
}
