/** The similarity cache in use: what is stored answers what is alike enough, for as long as asked. */
module CacheLaws {
  import opened Base
  import opened MemoryTypes
  import opened SemanticCaches

  /** Something stored in an empty partition answers a lookup there exactly if its likeness to the
      lookup is defined and reaches the threshold, and its time to live, if any, is not over. */
  lemma StoreThenLookup(store: Event, get: Event, cosine: Similarity)
    requires store.Set? && store.embedded.Some? && get.Get? && get.embedded.Some? && store.Key() == get.Key()
    ensures var likeness := cosine(get.embedded.value, store.embedded.value);
      AnswerTo(Partition(Next(map[], store), get.Key()), cosine, get)
      == if likeness.Some? && likeness.value >= get.threshold && (store.ttl <= 0 || get.now < store.now + store.ttl)
         then Hit(store.response, store.cost) else Miss
  {
    var e := store.Stored();
    assert Partition(Next(map[], store), get.Key()) == [] + [e] == [e];
    ExpiredIsDropped(e, get.now);
    assert [e][..0] == [];
  }

  /** Of two stored one after the other the one more alike answers, and of two equally alike the one
      stored first. */
  lemma MoreAlikeAnswers(first: Event, second: Event, get: Event, cosine: Similarity)
    requires first.Set? && first.embedded.Some? && first.ttl <= 0 && second.Set? && second.embedded.Some? && second.ttl <= 0
    requires get.Get? && get.embedded.Some? && first.Key() == get.Key() && second.Key() == get.Key()
    requires cosine(get.embedded.value, first.embedded.value).Some? && cosine(get.embedded.value, second.embedded.value).Some?
    ensures var a := cosine(get.embedded.value, first.embedded.value).value;
      var b := cosine(get.embedded.value, second.embedded.value).value;
      AnswerTo(Partition(Next(Next(map[], first), second), get.Key()), cosine, get)
      == if (if b > a then b else a) < get.threshold then Miss
         else if b > a then Hit(second.response, second.cost) else Hit(first.response, first.cost)
  {
    var d, e := first.Stored(), second.Stored();
    assert Partition(Next(map[], first), get.Key()) == [] + [d] == [d];
    assert Partition(Next(Next(map[], first), second), get.Key()) == [d] + [e];
    ExpiredIsDropped(d, get.now);
    OneMoreEntry([d], e, get.now);
    BestNext([d], e, get.embedded.value, cosine);
    assert [d][..0] == [];
  }

  /** Without an embedding nothing is stored and nothing is found. */
  lemma NoEmbedding(c: Cache, e: Event, cosine: Similarity)
    requires e.embedded.None?
    ensures Next(c, e) == c && (e.Get? ==> AnswerTo(Partition(c, e.Key()), cosine, e) == Failed)
  {}
}
