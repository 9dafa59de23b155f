/** Answers worked out once and shared by key: what such a cache may be trusted with. */
module Memo {
  /** The answers found, the keys that have none, and, for the proofs, the request each answer was
      worked out from and every request made so far. */
  datatype Memo<K(==), L(==), S> = Memo(found: map<K, S>, failed: set<K>, source: map<K, L>, asked: set<L>)

  ghost predicate SoundMemo<K(!new), L(!new), S(!new)>(m: Memo<K, L, S>, key: L -> K, good: (L, S) -> bool, can: L -> bool) {
    m.found.Keys !! m.failed && m.source.Keys == m.found.Keys + m.failed &&
    (forall k :: k in m.source ==> m.source[k] in m.asked && key(m.source[k]) == k) &&
    (forall k :: k in m.found ==> good(m.source[k], m.found[k])) &&
    (forall k :: k in m.failed ==> !can(m.source[k])) &&
    (forall l :: l in m.asked ==> key(l) in m.source)
  }

  /** Nothing once decided is decided again. */
  ghost predicate Extends<K, L, S>(old': Memo<K, L, S>, new': Memo<K, L, S>) {
    (forall k :: k in old'.source ==> k in new'.source && (k in new'.found <==> k in old'.found)) &&
    (forall k :: k in old'.found ==> k in new'.found && new'.found[k] == old'.found[k])
  }

  function Failed<K, L, S>(m: Memo<K, L, S>, k: K, l: L): Memo<K, L, S> {
    Memo(m.found, m.failed + {k}, m.source[k := l], m.asked + {l})
  }

  function Found<K, L, S>(m: Memo<K, L, S>, k: K, l: L, s: S): Memo<K, L, S> {
    Memo(m.found[k := s], m.failed, m.source[k := l], m.asked + {l})
  }

  lemma AskedAgain<K(!new), L(!new), S(!new)>(m: Memo<K, L, S>, key: L -> K, good: (L, S) -> bool, can: L -> bool, l: L)
    requires SoundMemo(m, key, good, can) && key(l) in m.source
    ensures SoundMemo(m.(asked := m.asked + {l}), key, good, can)
  {
  }

  lemma FirstFailure<K(!new), L(!new), S(!new)>(m: Memo<K, L, S>, key: L -> K, good: (L, S) -> bool, can: L -> bool, l: L)
    requires SoundMemo(m, key, good, can) && key(l) !in m.source && !can(l)
    ensures SoundMemo(Failed(m, key(l), l), key, good, can) && Extends(m, Failed(m, key(l), l))
  {
  }

  lemma FirstSuccess<K(!new), L(!new), S(!new)>(m: Memo<K, L, S>, key: L -> K, good: (L, S) -> bool, can: L -> bool, l: L, s: S)
    requires SoundMemo(m, key, good, can) && key(l) !in m.source && good(l, s)
    ensures SoundMemo(Found(m, key(l), l, s), key, good, can) && Extends(m, Found(m, key(l), l, s))
  {
  }
}
