/** Choosing from finite sets. */
module Sets {

  lemma Pick<T>(s: set<T>) returns (k: T)
    requires s != {}
    ensures k in s
  {
    k :| k in s;
  }

  lemma NonEmpty(s: set<int>)
    requires s != {}
    ensures exists k :: k in s
  {
    var k := Pick(s);
  }
}
