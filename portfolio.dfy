/**
 The editable portfolio and its add, update and delete handlers (app.py,
 lines 250-291): an ordered dictionary from stock symbol to its page URL
 and allocation weight.

 Python dictionaries keep insertion order, and the aggregation walks the
 holdings in that order, so the model keeps the order explicitly: a
 sequence of distinct keys beside a map from key to entry.  A new key
 goes to the end; deleting a key keeps the others in their order.
 */
module Portfolio {

  /** The value stored under a symbol: {"url": ..., "allocation": ...}. */
  datatype Entry = Entry(url: string, allocation: real)

  /** One holding as the aggregation sees it, in portfolio order. */
  datatype Holding = Holding(symbol: string, url: string, allocation: real)

  /** What the "Add to Portfolio" button does with its input. */
  datatype AddOutcome =
    | Added(symbol: string)            // inserted under the upper-cased symbol
    | MissingField                     // symbol or URL left empty
    | AlreadyExists(symbol: string)    // the upper-cased symbol is taken

  function UpperChar(c: char): (u: char)
    ensures 'a' <= c <= 'z' ==> 'A' <= u <= 'Z'
    ensures !('a' <= c <= 'z') ==> u == c
  {
    if 'a' <= c <= 'z' then (c as int - 'a' as int + 'A' as int) as char else c
  }

  /** str.upper() on ASCII letters. */
  function Upper(s: string): (r: string)
    ensures |r| == |s|
    ensures forall k :: 0 <= k < |s| ==> r[k] == UpperChar(s[k])
  {
    if |s| == 0 then [] else Upper(s[..|s| - 1]) + [UpperChar(s[|s| - 1])]
  }

  /** Upper-casing twice is upper-casing once, so an upper-cased key is
      found again when the same symbol is added a second time. */
  lemma UpperIdempotent(s: string)
    ensures Upper(Upper(s)) == Upper(s)
  {
    assert forall k :: 0 <= k < |s| ==> Upper(Upper(s))[k] == Upper(s)[k];
  }

  predicate NoDuplicates(keys: seq<string>) {
    forall i, j :: 0 <= i < j < |keys| ==> keys[i] != keys[j]
  }

  /** The keys with key taken out, the rest in their order. */
  function Remove(keys: seq<string>, key: string): (r: seq<string>)
    ensures forall x :: x in r <==> x in keys && x != key
  {
    if |keys| == 0 then []
    else if keys[0] == key then Remove(keys[1..], key)
    else [keys[0]] + Remove(keys[1..], key)
  }

  /** Removing a key that sits at position p and nowhere else splices out
      exactly that position. */
  lemma {:induction false} RemoveAt(keys: seq<string>, p: nat)
    requires p < |keys| && keys[p] !in keys[..p] && keys[p] !in keys[p + 1..]
    ensures Remove(keys, keys[p]) == keys[..p] + keys[p + 1..]
  {
    var key := keys[p];
    if p == 0 {
      RemoveAbsent(keys[1..], key);
      assert keys[..0] + keys[1..] == keys[1..];
    } else {
      var rest := keys[1..];
      assert keys[0] in keys[..p];
      assert rest[p - 1] == key;
      assert rest[..p - 1] == keys[1..p];
      assert rest[p..] == keys[p + 1..];
      assert key !in rest[..p - 1] by {
        assert forall x :: x in keys[1..p] ==> x in keys[..p];
      }
      RemoveAt(rest, p - 1);
      assert keys[..p] == [keys[0]] + keys[1..p];
    }
  }

  /** Splicing out one position keeps a key list free of duplicates. */
  lemma SpliceNoDuplicates(keys: seq<string>, p: nat)
    requires NoDuplicates(keys) && p < |keys|
    ensures NoDuplicates(keys[..p] + keys[p + 1..])
  {
    var keys' := keys[..p] + keys[p + 1..];
    forall i, j | 0 <= i < j < |keys'| ensures keys'[i] != keys'[j] {
      SplicedAt(keys, p, i);
      SplicedAt(keys, p, j);
    }
  }

  /** In a duplicate-free list the key at p occurs nowhere else. */
  lemma UniqueAt(keys: seq<string>, p: nat)
    requires NoDuplicates(keys) && p < |keys|
    ensures keys[p] !in keys[..p] && keys[p] !in keys[p + 1..]
    ensures forall q :: 0 <= q < |keys| && keys[q] == keys[p] ==> q == p
  {
    assert forall x :: x in keys[..p] ==> exists q :: 0 <= q < p && keys[q] == x;
    assert forall q :: p < q < |keys| ==> keys[p + 1..][q - p - 1] == keys[q];
  }

  /** Position m of a sequence with position p spliced out. */
  lemma SplicedAt<T>(s: seq<T>, p: nat, m: nat)
    requires p < |s| && m < |s| - 1
    ensures (s[..p] + s[p + 1..])[m] == s[if m < p then m else m + 1]
  {
  }

  /** Removing a key that is not there changes nothing. */
  lemma {:induction false} RemoveAbsent(keys: seq<string>, key: string)
    requires key !in keys
    ensures Remove(keys, key) == keys
  {
    if |keys| > 0 {
      RemoveAbsent(keys[1..], key);
      assert keys == [keys[0]] + keys[1..];
    }
  }

  /** Every key of the list has an entry. */
  predicate Covers(keys: seq<string>, entries: map<string, Entry>) {
    forall i :: 0 <= i < |keys| ==> keys[i] in entries
  }

  /** The holdings listed by keys, in that order. */
  function HoldingsOf(keys: seq<string>, entries: map<string, Entry>): (hs: seq<Holding>)
    requires Covers(keys, entries)
    ensures |hs| == |keys|
    ensures forall i :: 0 <= i < |keys| ==>
              hs[i] == Holding(keys[i], entries[keys[i]].url, entries[keys[i]].allocation)
  {
    seq(|keys|, i requires 0 <= i < |keys| && keys[i] in entries =>
      Holding(keys[i], entries[keys[i]].url, entries[keys[i]].allocation))
  }

  /** Inserting a fresh key at the end appends one holding. */
  lemma HoldingsAppend(keys: seq<string>, entries: map<string, Entry>, key: string, e: Entry)
    requires Covers(keys, entries) && key !in keys
    ensures Covers(keys + [key], entries[key := e])
    ensures HoldingsOf(keys + [key], entries[key := e])
            == HoldingsOf(keys, entries) + [Holding(key, e.url, e.allocation)]
  {
    var keys', entries' := keys + [key], entries[key := e];
    forall i | 0 <= i < |keys'| ensures keys'[i] in entries' {
    }
    assert HoldingsOf(keys', entries') == HoldingsOf(keys, entries) + [Holding(key, e.url, e.allocation)];
  }

  /** Overwriting the entry of a listed key changes its holding only. */
  lemma HoldingsOverwrite(keys: seq<string>, entries: map<string, Entry>, key: string, e: Entry)
    requires Covers(keys, entries)
    ensures Covers(keys, entries[key := e])
    ensures forall i :: 0 <= i < |keys| ==>
              HoldingsOf(keys, entries[key := e])[i]
              == if keys[i] == key then Holding(key, e.url, e.allocation) else HoldingsOf(keys, entries)[i]
  {
  }

  /** Deleting the key at position p drops exactly the holding at p. */
  lemma HoldingsDelete(keys: seq<string>, entries: map<string, Entry>, p: nat)
    requires Covers(keys, entries) && NoDuplicates(keys) && p < |keys|
    ensures Covers(keys[..p] + keys[p + 1..], entries - {keys[p]})
    ensures HoldingsOf(keys[..p] + keys[p + 1..], entries - {keys[p]})
            == HoldingsOf(keys, entries)[..p] + HoldingsOf(keys, entries)[p + 1..]
  {
    var keys', entries' := keys[..p] + keys[p + 1..], entries - {keys[p]};
    forall m | 0 <= m < |keys'| ensures keys'[m] == keys[if m < p then m else m + 1] {
      SplicedAt(keys, p, m);
    }
    var hs, hs' := HoldingsOf(keys, entries), HoldingsOf(keys', entries');
    forall m | 0 <= m < |keys'| ensures hs'[m] == (hs[..p] + hs[p + 1..])[m] {
      SplicedAt(hs, p, m);
    }
    assert hs' == hs[..p] + hs[p + 1..];
  }

  /** Symbols are unique, and the key list and the map agree. */
  ghost predicate Keyed(keys: seq<string>, entries: map<string, Entry>) {
    && NoDuplicates(keys)
    && entries.Keys == set k | k in keys
  }

  /** Deleting the key at position p keeps keys and map in agreement; the
      key occurs nowhere else in the list. */
  lemma DeleteKeyed(keys: seq<string>, entries: map<string, Entry>, p: nat)
    requires Keyed(keys, entries) && p < |keys|
    ensures forall q :: 0 <= q < |keys| && keys[q] == keys[p] ==> q == p
    ensures Remove(keys, keys[p]) == keys[..p] + keys[p + 1..]
    ensures Keyed(Remove(keys, keys[p]), entries - {keys[p]})
    ensures Covers(keys, entries)
    ensures HoldingsOf(Remove(keys, keys[p]), entries - {keys[p]})
            == HoldingsOf(keys, entries)[..p] + HoldingsOf(keys, entries)[p + 1..]
  {
    UniqueAt(keys, p);
    RemoveAt(keys, p);
    SpliceNoDuplicates(keys, p);
    HoldingsDelete(keys, entries, p);
    var keys', entries' := Remove(keys, keys[p]), entries - {keys[p]};
    assert entries'.Keys == set k | k in keys';
  }

  /** st.session_state.stock_data: the portfolio being edited. */
  class StockData {
    /** The symbols in insertion order. */
    var keys: seq<string>
    /** What is stored under each symbol. */
    var entries: map<string, Entry>

    /** Symbols are unique, and the key list and the map agree. */
    ghost predicate Valid()
      reads this
    {
      Keyed(keys, entries)
    }

    /** The holdings in iteration order, as stock_data.items() yields them. */
    function Holdings(): (hs: seq<Holding>)
      reads this
      requires Valid()
    {
      HoldingsOf(keys, entries)
    }

    /** An empty portfolio. */
    constructor ()
      ensures Valid()
      ensures keys == [] && entries == map[]
    {
      keys := [];
      entries := map[];
    }

    /** The "Add to Portfolio" handler (app.py, lines 250-262). */
    method Add(symbol: string, url: string, allocation: real) returns (outcome: AddOutcome)
      requires Valid()
      modifies this
      ensures Valid()
      ensures symbol == [] || url == [] ==>
                outcome == MissingField && keys == old(keys) && entries == old(entries)
      ensures symbol != [] && url != [] && Upper(symbol) in old(entries) ==>
                outcome == AlreadyExists(Upper(symbol)) && keys == old(keys) && entries == old(entries)
      ensures symbol != [] && url != [] && Upper(symbol) !in old(entries) ==>
                && outcome == Added(Upper(symbol))
                && keys == old(keys) + [Upper(symbol)]
                && entries == old(entries)[Upper(symbol) := Entry(url, allocation)]
                && Holdings() == old(Holdings()) + [Holding(Upper(symbol), url, allocation)]
    {
      if symbol == [] || url == [] {
        return MissingField;
      }
      var key := Upper(symbol);
      if key in entries {
        return AlreadyExists(key);
      }
      HoldingsAppend(keys, entries, key, Entry(url, allocation));
      keys := keys + [key];
      entries := entries[key := Entry(url, allocation)];
      return Added(key);
    }

    /** The "Update" handler of a listed stock (app.py, lines 281-285):
        overwrites its URL and allocation and nothing else. */
    method Update(symbol: string, url: string, allocation: real)
      requires Valid() && symbol in entries
      modifies this
      ensures Valid()
      ensures keys == old(keys)
      ensures entries == old(entries)[symbol := Entry(url, allocation)]
      ensures forall i :: 0 <= i < |keys| ==>
                Holdings()[i] == if keys[i] == symbol then Holding(symbol, url, allocation)
                                 else old(Holdings())[i]
    {
      HoldingsOverwrite(keys, entries, symbol, Entry(url, allocation));
      entries := entries[symbol := Entry(url, allocation)];
    }

    /** The "Delete" handler of a listed stock (app.py, lines 288-291):
        removes the symbol and keeps the others in their order. */
    method Delete(symbol: string)
      requires Valid() && symbol in entries
      modifies this
      ensures Valid()
      ensures keys == Remove(old(keys), symbol)
      ensures entries == old(entries) - {symbol}
      ensures forall p :: 0 <= p < |old(keys)| && old(keys)[p] == symbol ==>
                && keys == old(keys)[..p] + old(keys)[p + 1..]
                && Holdings() == old(Holdings())[..p] + old(Holdings())[p + 1..]
    {
      assert symbol in keys;
      var p :| 0 <= p < |keys| && keys[p] == symbol;
      ghost var hs := HoldingsOf(keys, entries);
      DeleteKeyed(keys, entries, p);
      keys, entries := Remove(keys, symbol), entries - {symbol};
      assert Holdings() == hs[..p] + hs[p + 1..];
    }
  }
}
