/**
 * SortedHash (lib/buildr/core/resolve.rb:161-169): a hash extended with it is emitted by
 * walking `sort`, that is its key/value pairs in ascending key order. The model keeps the
 * order of the emitted pairs and leaves the YAML text out.
 */
module SortedHash {
  import opened Builtins

  /** `k` is a key of `keys` that sorts no later than any other. */
  ghost predicate Least(k: string, keys: set<string>) {
    k in keys && forall k' | k' in keys :: AtMost(k, k')
  }

  /** Every finite non-empty set of strings has a least element. */
  lemma {:induction false} LeastExists(keys: set<string>)
    requires keys != {}
    ensures exists k :: Least(k, keys)
    decreases |keys|
  {
    var x :| x in keys;
    if keys != {x} {
      var rest := keys - {x};
      LeastExists(rest);
      var m :| Least(m, rest);
      AtMostTotal(x, m);
      if AtMost(x, m) {
        forall k' | k' in keys ensures AtMost(x, k') {
          if k' != x {
            AtMostTransitive(x, m, k');
          }
        }
        assert Least(x, keys);
      } else {
        assert Least(m, keys);
      }
    } else {
      assert Least(x, keys);
    }
  }

  /** Two least elements of the same set are the same string. */
  lemma LeastUnique(a: string, b: string, keys: set<string>)
    requires Least(a, keys) && Least(b, keys)
    ensures a == b
  {
    if a != b {
      assert Below(a, b) && Below(b, a);
      BelowAsymmetric(a, b);
    }
  }

  /** Strictly ascending keys. */
  ghost predicate KeysAscend<V>(ps: seq<(string, V)>) {
    forall i, j | 0 <= i < j < |ps| :: Below(ps[i].0, ps[j].0)
  }

  /** The keys of `ps`, in order. */
  function PairKeys<V>(ps: seq<(string, V)>): (ks: seq<string>)
    ensures |ks| == |ps| && forall i | 0 <= i < |ps| :: ks[i] == ps[i].0
  {
    seq(|ps|, i requires 0 <= i < |ps| => ps[i].0)
  }

  /** `ps` lists exactly the pairs of `h`, each once. */
  ghost predicate ListsPairs<V>(ps: seq<(string, V)>, h: map<string, V>) {
    && |ps| == |h|
    && (forall i | 0 <= i < |ps| :: ps[i].0 in h && h[ps[i].0] == ps[i].1)
    && (forall k | k in h :: k in PairKeys(ps))
  }

  /** The least pair in front of an ascending listing of the rest is an ascending listing of the whole. */
  lemma LeastFirst<V>(h: map<string, V>, k: string, tail: seq<(string, V)>)
    requires Least(k, h.Keys)
    requires KeysAscend(tail) && ListsPairs(tail, h - {k})
    ensures KeysAscend([(k, h[k])] + tail) && ListsPairs([(k, h[k])] + tail, h)
  {
    LeastFirstAscends(k, h.Keys, tail);
    LeastFirstLists(h, k, tail);
  }

  lemma LeastFirstAscends<V>(k: string, keys: set<string>, tail: seq<(string, V)>)
    requires Least(k, keys) && KeysAscend(tail)
    requires forall i | 0 <= i < |tail| :: tail[i].0 in keys - {k}
    ensures forall v: V :: KeysAscend([(k, v)] + tail)
  {
    forall v: V ensures KeysAscend([(k, v)] + tail) {
      var ps := [(k, v)] + tail;
      assert forall i | 1 <= i < |ps| :: ps[i] == tail[i - 1];
    }
  }

  lemma LeastFirstLists<V>(h: map<string, V>, k: string, tail: seq<(string, V)>)
    requires k in h && ListsPairs(tail, h - {k})
    ensures ListsPairs([(k, h[k])] + tail, h)
  {
    var rest := h - {k};
    var ps := [(k, h[k])] + tail;
    assert forall i | 1 <= i < |ps| :: ps[i] == tail[i - 1];
    forall k' | k' in h ensures k' in PairKeys(ps) {
      if k' == k {
        assert PairKeys(ps)[0] == k';
      } else {
        assert k' in rest;
        var i :| 0 <= i < |tail| && PairKeys(tail)[i] == k';
        assert ps[i + 1] == tail[i];
      }
    }
  }

  /** The first key of an ascending listing of a hash is its least key, and the rest lists the remainder. */
  lemma FirstLeast<V>(h: map<string, V>, ps: seq<(string, V)>)
    requires |h| > 0 && KeysAscend(ps) && ListsPairs(ps, h)
    ensures Least(ps[0].0, h.Keys)
    ensures KeysAscend(ps[1..]) && ListsPairs(ps[1..], h - {ps[0].0})
  {
    forall k' | k' in h ensures AtMost(ps[0].0, k') {
      var i :| 0 <= i < |ps| && PairKeys(ps)[i] == k';
      if i > 0 {
        assert Below(ps[0].0, ps[i].0);
      }
    }
    RestListed(h, ps);
  }

  lemma RestListed<V>(h: map<string, V>, ps: seq<(string, V)>)
    requires |h| > 0 && KeysAscend(ps) && ListsPairs(ps, h)
    ensures ListsPairs(ps[1..], h - {ps[0].0})
  {
    var tail := ps[1..];
    var rest := h - {ps[0].0};
    BelowIrreflexive(ps[0].0);
    forall i | 0 <= i < |tail| ensures tail[i].0 in rest && rest[tail[i].0] == tail[i].1 {
      assert tail[i] == ps[i + 1] && Below(ps[0].0, ps[i + 1].0);
    }
    forall k' | k' in rest ensures k' in PairKeys(tail) {
      var i :| 0 <= i < |ps| && PairKeys(ps)[i] == k';
      assert i != 0;
      assert PairKeys(tail)[i - 1] == k';
    }
  }

  /** `sort.each { |k, v| map.add(k, v) }`: the hash's pairs in the order they are emitted. */
  ghost function Emitted<V>(h: map<string, V>): (ps: seq<(string, V)>)
    ensures KeysAscend(ps)
    ensures ListsPairs(ps, h)
    decreases |h|
  {
    if |h| == 0 then []
    else
      LeastExists(h.Keys);
      var k :| Least(k, h.Keys);
      var tail := Emitted(h - {k});
      LeastFirst(h, k, tail);
      [(k, h[k])] + tail
  }

  /** The emitted order is the only ascending listing of the hash, so the output does not depend on insertion order. */
  lemma {:induction false} EmittedIsCanonical<V>(h: map<string, V>, ps: seq<(string, V)>)
    requires KeysAscend(ps) && ListsPairs(ps, h)
    ensures ps == Emitted(h)
    decreases |h|
  {
    if |h| > 0 {
      var e := Emitted(h);
      FirstLeast(h, ps);
      FirstLeast(h, e);
      LeastUnique(e[0].0, ps[0].0, h.Keys);
      EmittedIsCanonical(h - {ps[0].0}, ps[1..]);
      EmittedIsCanonical(h - {e[0].0}, e[1..]);
      assert e == [e[0]] + e[1..];
      assert ps == [ps[0]] + ps[1..];
    }
  }
}
