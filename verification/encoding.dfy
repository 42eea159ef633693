/** Identity encoding of categorical columns (`data_preprocessing`): every
    distinct raw value of a column gets a dense integer code, with a reverse
    dictionary for decoding. Raw values are an arbitrary token type `T`; the
    `-1` written into the missing entries of customer columns is the parameter
    `missing`. */
module Encoding {
  import opened Results
  import opened Columns

  /** The encoding dictionary of one column and its decoding dictionary. */
  datatype Codec<T> = Codec(encode: map<T, int>, decode: map<int, T>)

  /** Raised by a dictionary lookup of a key that is not there. */
  datatype KeyError<K> = KeyError(key: K)

  /** The dictionary pairing each of a sequence of distinct names with its
      position, together with the reverse dictionary. */
  function Enumerate<T(!new)>(names: seq<T>): (c: Codec<T>)
    requires Distinct(names)
    ensures c.encode.Keys == Values(names)
    ensures forall k :: k in c.decode <==> 0 <= k < |names|
    ensures forall i :: 0 <= i < |names| ==> c.encode[names[i]] == i && c.decode[i] == names[i]
  {
    var enc := map i | 0 <= i < |names| :: names[i] := i;
    var dec := map i | 0 <= i < |names| :: names[i];
    assert enc.Keys == Values(names) by {
      forall x | x in names ensures x in enc {
        var i :| 0 <= i < |names| && names[i] == x;
        assert names[i] in enc;
      }
    }
    Codec(enc, dec)
  }

  /** Article columns (lines 57-64): the codes are exactly 0 .. n-1, n the number
      of distinct values, and the two dictionaries are each other's inverse. */
  function ArticleCodec<T(==,!new)>(column: seq<T>): (c: Codec<T>)
    ensures c.encode.Keys == Values(column)
    ensures forall k :: k in c.decode <==> 0 <= k < |Values(column)|
    ensures forall x :: x in c.encode ==> c.encode[x] in c.decode && c.decode[c.encode[x]] == x
    ensures forall k :: k in c.decode ==> c.decode[k] in c.encode && c.encode[c.decode[k]] == k
  {
    var names := Unique(column);
    assert Values(names) == Values(column);
    DistinctCardinality(names);
    var c := Enumerate(names);
    assert forall x :: x in c.encode ==> c.encode[x] in c.decode && c.decode[c.encode[x]] == x by {
      forall x | x in c.encode ensures c.encode[x] in c.decode && c.decode[c.encode[x]] == x {
        var i :| 0 <= i < |names| && names[i] == x;
      }
    }
    c
  }

  /** The names with the fill value taken out, in order. */
  function Without<T(==,!new)>(names: seq<T>, missing: T): (r: seq<T>)
    requires Distinct(names)
    ensures Distinct(r)
    ensures Values(r) == Values(names) - {missing}
    decreases |names|
  {
    if names == [] then []
    else if names[0] == missing then Without(names[1..], missing)
    else
      var rest := Without(names[1..], missing);
      assert names[0] !in names[1..] by {
        forall j | 0 <= j < |names| - 1 ensures names[1..][j] != names[0] {
          assert names[1..][j] == names[j + 1];
        }
      }
      assert names[0] !in Values(names[1..]);
      assert names[0] !in rest by {
        assert Values(rest) == Values(names[1..]) - {missing};
        assert names[0] !in Values(rest);
      }
      assert Values([names[0]] + rest) == {names[0]} + Values(rest);
      assert Values(names) == {names[0]} + Values(names[1..]) by {
        assert names == [names[0]] + names[1..];
      }
      [names[0]] + rest
  }

  /** Customer columns (lines 81-93): the fill value, when present, is encoded
      as -1; every other value gets one of the contiguous codes 0 .. k-1; the
      decoding dictionary covers exactly 0 .. k-1, so -1 cannot be decoded. */
  function CustomerCodec<T(==,!new)>(column: seq<T>, missing: T): (c: Codec<T>)
    ensures c.encode.Keys == Values(column)
    ensures missing in column ==> c.encode[missing] == -1
    ensures forall k :: k in c.decode <==> 0 <= k < |Values(column) - {missing}|
    ensures -1 !in c.decode
    ensures forall x :: x in c.encode && x != missing ==> c.encode[x] in c.decode && c.decode[c.encode[x]] == x
    ensures forall k :: k in c.decode ==> c.decode[k] in c.encode && c.decode[k] != missing && c.encode[c.decode[k]] == k
  {
    var names := Unique(column);
    assert Values(names) == Values(column);
    if missing in names then
      SentinelCodec(Without(names, missing), missing)
    else
      assert Values(column) - {missing} == Values(column);
      ArticleCodec(column)
  }

  /** The sentinel branch of the customer loop (lines 84-87): contiguous codes for
      the names without the fill value, then the fill value added with code -1. */
  function SentinelCodec<T(==,!new)>(kept: seq<T>, missing: T): (c: Codec<T>)
    requires Distinct(kept)
    requires missing !in kept
    ensures c.encode.Keys == Values(kept) + {missing}
    ensures c.encode[missing] == -1
    ensures forall k :: k in c.decode <==> 0 <= k < |Values(kept)|
    ensures forall x :: x in c.encode && x != missing ==> c.encode[x] in c.decode && c.decode[c.encode[x]] == x
    ensures forall k :: k in c.decode ==> c.decode[k] in c.encode && c.decode[k] != missing && c.encode[c.decode[k]] == k
  {
    DistinctCardinality(kept);
    var e := Enumerate(kept);
    assert forall x :: x in e.encode ==> e.encode[x] in e.decode && e.decode[e.encode[x]] == x by {
      forall x | x in e.encode ensures e.encode[x] in e.decode && e.decode[e.encode[x]] == x {
        var i :| 0 <= i < |kept| && kept[i] == x;
      }
    }
    Codec(e.encode[missing := -1], e.decode)
  }

  /** Replacing every value of a column by its dictionary entry: looks every
      value up in order and raises `KeyError` on the first value the
      dictionary lacks. */
  function Apply<K, V>(dict: map<K, V>, column: seq<K>): (r: Result<seq<V>, KeyError<K>>)
    ensures r.Success? <==> forall i :: 0 <= i < |column| ==> column[i] in dict
    ensures r.Success? ==> |r.value| == |column| && forall i :: 0 <= i < |column| ==> r.value[i] == dict[column[i]]
    ensures r.Failure? ==> exists i :: 0 <= i < |column| && column[i] == r.error.key && column[i] !in dict
                                        && forall j :: 0 <= j < i ==> column[j] in dict
    decreases |column|
  {
    if column == [] then Success([])
    else if column[0] !in dict then Failure(KeyError(column[0]))
    else
      match Apply(dict, column[1..])
      case Failure(e) =>
        assert exists i :: 1 <= i < |column| && column[i] == e.key && column[i] !in dict
                           && forall j :: 0 <= j < i ==> column[j] in dict by {
          var i :| 0 <= i < |column| - 1 && column[1..][i] == e.key && column[1..][i] !in dict
                   && forall j :: 0 <= j < i ==> column[1..][j] in dict;
          assert forall j :: 1 <= j < i + 1 ==> column[j] == column[1..][j - 1];
        }
        Failure(e)
      case Success(rest) =>
        assert forall i :: 1 <= i < |column| ==> column[i] == column[1..][i - 1];
        Success([dict[column[0]]] + rest)
  }

  /** Encoding one article column in place (lines 60-64): it never fails, every
      code lies in 0 .. n-1 and decoding gives back the original column. */
  function EncodeArticleColumn<T(==,!new)>(column: seq<T>): (r: (seq<int>, Codec<T>))
    ensures r.1 == ArticleCodec(column)
    ensures |r.0| == |column|
    ensures forall i :: 0 <= i < |column| ==> 0 <= r.0[i] < |Values(column)| && r.1.decode[r.0[i]] == column[i]
  {
    var c := ArticleCodec(column);
    var codes := Apply(c.encode, column);
    assert codes.Success?;
    (codes.value, c)
  }

  /** Encoding one customer column in place (lines 82-93): it never fails, the
      fill value becomes -1, every other value becomes a code in 0 .. k-1 that
      decodes back to it. */
  function EncodeCustomerColumn<T(==,!new)>(column: seq<T>, missing: T): (r: (seq<int>, Codec<T>))
    ensures r.1 == CustomerCodec(column, missing)
    ensures |r.0| == |column|
    ensures forall i :: 0 <= i < |column| && column[i] == missing ==> r.0[i] == -1
    ensures forall i :: 0 <= i < |column| && column[i] != missing ==>
              0 <= r.0[i] < |Values(column) - {missing}| && r.1.decode[r.0[i]] == column[i]
  {
    var c := CustomerCodec(column, missing);
    var codes := Apply(c.encode, column);
    assert codes.Success?;
    (codes.value, c)
  }

  /** The article loop (lines 59-64) over a table given as its columns: each
      column is encoded with dictionaries of its own. */
  function EncodeArticles<T(==,!new)>(table: seq<seq<T>>): (r: seq<(seq<int>, Codec<T>)>)
    ensures |r| == |table|
    ensures forall k :: 0 <= k < |table| ==> r[k].1 == ArticleCodec(table[k]) && |r[k].0| == |table[k]|
    ensures forall k, i :: 0 <= k < |table| && 0 <= i < |table[k]| ==>
              r[k].0[i] in r[k].1.decode && r[k].1.decode[r[k].0[i]] == table[k][i]
  {
    seq(|table|, k requires 0 <= k < |table| => EncodeArticleColumn(table[k]))
  }

  /** The customer loop (lines 81-93) over the encoded columns: each column is
      encoded with dictionaries of its own and the same fill value. */
  function EncodeCustomers<T(==,!new)>(table: seq<seq<T>>, missing: T): (r: seq<(seq<int>, Codec<T>)>)
    ensures |r| == |table|
    ensures forall k :: 0 <= k < |table| ==> r[k].1 == CustomerCodec(table[k], missing) && |r[k].0| == |table[k]|
    ensures forall k, i :: 0 <= k < |table| && 0 <= i < |table[k]| && table[k][i] != missing ==>
              r[k].0[i] in r[k].1.decode && r[k].1.decode[r[k].0[i]] == table[k][i]
    ensures forall k, i :: 0 <= k < |table| && 0 <= i < |table[k]| && table[k][i] == missing ==> r[k].0[i] == -1
  {
    seq(|table|, k requires 0 <= k < |table| => EncodeCustomerColumn(table[k], missing))
  }

  /** Decoding a code the decoding dictionary lacks raises `KeyError`; in
      particular the sentinel code -1 of a customer column never decodes. */
  lemma SentinelHasNoDecoding<T(!new)>(column: seq<T>, missing: T)
    requires missing in column
    ensures Apply(CustomerCodec(column, missing).decode, [CustomerCodec(column, missing).encode[missing]]) == Failure(KeyError(-1))
  {
  }
}
