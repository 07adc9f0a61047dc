/**
 * Laws of multisets that the verifier should not have to rediscover in a large context: taking a part
 * out and putting it back, and regrouping. They hold for all multisets and say nothing about mail; each
 * is called where a proof has hidden everything else and only needs this one step, as when addresses
 * move from hand to file.
 */
module Bags {

  lemma Parts<T>(all: multiset<T>, part: multiset<T>)
    requires part <= all
    ensures (all - part) + part == all
  {
  }

  lemma Fits<T>(rest: multiset<T>, part: multiset<T>)
    ensures part <= rest + part && (rest + part) - part == rest
  {
  }

  lemma Assoc<T>(a: multiset<T>, b: multiset<T>, c: multiset<T>)
    ensures a + (b + c) == (a + b) + c
  {
  }

  lemma Swap<T>(a: multiset<T>, b: multiset<T>, c: multiset<T>)
    ensures a + (b + c) == (a + c) + b
  {
  }

  lemma TakeOne<T>(all: multiset<T>, part: multiset<T>, x: T, a: multiset<T>, b: multiset<T>)
    requires all == part + multiset{x}
    ensures x in (all + a) + b && ((all + a) + b) - multiset{x} == (part + a) + b
  {
  }
}
