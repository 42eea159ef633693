/** The transactions table after encoding, and its encoding from raw ids
    (`data_preprocessing`, lines 96-98). */
module Transactions {
  import opened Results
  import opened Columns
  import opened Encoding

  /** One row of the encoded transactions table; `date` is `t_dat` as a day
      number, so comparing dates is comparing integers. */
  datatype Transaction = Transaction(customer: int, article: int, date: int, price: real, channel: int)

  /** One row of the transactions table as read, with raw customer and article ids. */
  datatype RawTransaction<C, A> = RawTransaction(customer: C, article: A, date: int, price: real, channel: int)

  /** Which id column held the value missing from its encoding dictionary. */
  datatype UnknownId<C, A> = UnknownCustomer(customer: C) | UnknownArticle(article: A)

  /** The customer codes occurring in a transaction table. */
  function Customers(ts: seq<Transaction>): set<int> {
    set i | 0 <= i < |ts| :: ts[i].customer
  }

  /** The article codes occurring in a transaction table. */
  function Articles(ts: seq<Transaction>): set<int> {
    set i | 0 <= i < |ts| :: ts[i].article
  }

  /** The (customer, article) coordinate of a row. */
  function Pair(t: Transaction): (int, int) {
    (t.customer, t.article)
  }

  /** The (customer, article) column pair of a table, row by row. */
  function Pairs(ts: seq<Transaction>): (ps: seq<(int, int)>)
    ensures |ps| == |ts|
    ensures forall i :: 0 <= i < |ts| ==> ps[i] == Pair(ts[i])
  {
    seq(|ts|, i requires 0 <= i < |ts| => Pair(ts[i]))
  }

  /** Pairs of a concatenation are the concatenated pairs. */
  lemma PairsAppend(ts: seq<Transaction>, us: seq<Transaction>)
    ensures Pairs(ts + us) == Pairs(ts) + Pairs(us)
  {
    assert forall i :: 0 <= i < |ts| + |us| ==> (ts + us)[i] == if i < |ts| then ts[i] else us[i - |ts|];
  }

  /** The raw customer id column. */
  function CustomerColumn<C, A>(raw: seq<RawTransaction<C, A>>): (col: seq<C>)
    ensures |col| == |raw| && forall i :: 0 <= i < |raw| ==> col[i] == raw[i].customer
  {
    seq(|raw|, i requires 0 <= i < |raw| => raw[i].customer)
  }

  /** The raw article id column. */
  function ArticleColumn<C, A>(raw: seq<RawTransaction<C, A>>): (col: seq<A>)
    ensures |col| == |raw| && forall i :: 0 <= i < |raw| ==> col[i] == raw[i].article
  {
    seq(|raw|, i requires 0 <= i < |raw| => raw[i].article)
  }

  /** Lines 97-98: the customer column is encoded first, then the article
      column; an id absent from its dictionary raises `KeyError`, and every
      other field of a row is kept. */
  function EncodeTransactions<C, A>(raw: seq<RawTransaction<C, A>>, customerCodes: map<C, int>, articleCodes: map<A, int>)
    : (r: Result<seq<Transaction>, UnknownId<C, A>>)
    ensures r.Success? <==> (forall i :: 0 <= i < |raw| ==> raw[i].customer in customerCodes && raw[i].article in articleCodes)
    ensures r.Success? ==> |r.value| == |raw| && forall i :: 0 <= i < |raw| ==>
              var t := r.value[i];
              t.customer == customerCodes[raw[i].customer] && t.article == articleCodes[raw[i].article]
              && t.date == raw[i].date && t.price == raw[i].price && t.channel == raw[i].channel
    ensures r.Failure? && r.error.UnknownCustomer? ==> r.error.customer !in customerCodes && r.error.customer in CustomerColumn(raw)
    ensures r.Failure? && r.error.UnknownArticle? ==>
              r.error.article !in articleCodes && r.error.article in ArticleColumn(raw)
              && forall i :: 0 <= i < |raw| ==> raw[i].customer in customerCodes
  {
    var cs := Apply(customerCodes, CustomerColumn(raw));
    if cs.Failure? then Failure(UnknownCustomer(cs.error.key))
    else
      var arts := Apply(articleCodes, ArticleColumn(raw));
      if arts.Failure? then Failure(UnknownArticle(arts.error.key))
      else
        Success(seq(|raw|, i requires 0 <= i < |raw| =>
          Transaction(cs.value[i], arts.value[i], raw[i].date, raw[i].price, raw[i].channel)))
  }

  /** With the dictionaries built by the article and customer loops, encoding
      succeeds exactly when every id occurs in its table, and decoding the codes
      of a row gives back its raw ids (a customer filled with the sentinel
      keeps code -1). */
  lemma EncodedTransactionsDecode<C(!new), A(!new)>(
    raw: seq<RawTransaction<C, A>>, customerIds: seq<C>, articleIds: seq<A>, missing: C)
    requires forall i :: 0 <= i < |raw| ==> raw[i].customer in customerIds && raw[i].article in articleIds
    ensures var cc := CustomerCodec(customerIds, missing);
            var ac := ArticleCodec(articleIds);
            var r := EncodeTransactions(raw, cc.encode, ac.encode);
            r.Success? && forall i :: 0 <= i < |raw| ==>
              r.value[i].article in ac.decode && ac.decode[r.value[i].article] == raw[i].article
              && (raw[i].customer != missing ==> r.value[i].customer in cc.decode && cc.decode[r.value[i].customer] == raw[i].customer)
              && (raw[i].customer == missing ==> r.value[i].customer == -1)
  {
    var cc := CustomerCodec(customerIds, missing);
    var ac := ArticleCodec(articleIds);
    forall i | 0 <= i < |raw| ensures raw[i].customer in cc.encode && raw[i].article in ac.encode {
      assert raw[i].customer in Values(customerIds) && raw[i].article in Values(articleIds);
    }
    var r := EncodeTransactions(raw, cc.encode, ac.encode);
    assert r.Success?;
    forall i | 0 <= i < |raw|
      ensures r.value[i].article in ac.decode && ac.decode[r.value[i].article] == raw[i].article
    {
      assert r.value[i].article == ac.encode[raw[i].article];
    }
    forall i | 0 <= i < |raw| && raw[i].customer != missing
      ensures r.value[i].customer in cc.decode && cc.decode[r.value[i].customer] == raw[i].customer
    {
      assert r.value[i].customer == cc.encode[raw[i].customer];
    }
  }
}
