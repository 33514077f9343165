/**
 * The column-name index of csvParser.c: a table of BUCKETS chains keyed by the
 * djb2 hash of the name, each chain a list of (key, column) entries with the
 * most recently inserted entry at its head.
 *
 * The table's abstract value is the sequence of its BUCKETS chains; the chain
 * `chain[0], chain[1], ...` is the linked list `buckets[h] -> next -> ...`.
 * Keys are the bytes of the C string (without its terminator).
 */
module ColumnIndex {
  import opened Bytes

  const BUCKETS: nat := 8

  datatype Entry = Entry(key: Text, index: nat)

  /** `int c = *str++` reads a plain char, which is signed on the usual ABIs. */
  function SignedChar(c: Byte): int {
    if c as int < 128 then c as int else c as int - 256
  }

  /**
   * The djb2 accumulator on u64: start at 5381, then for each byte
   * hash = (hash << 5) + hash + c, all modulo 2^64.
   */
  function Djb2(s: Text): (h: nat)
    ensures h < U64
  {
    if s == [] then 5381 else (Djb2(s[..|s| - 1]) * 33 + SignedChar(s[|s| - 1])) % U64
  }

  /** The bucket of a key: djb2 reduced modulo BUCKETS. */
  function Hash(s: Text): (h: nat)
    ensures h < BUCKETS
  {
    Djb2(s) % BUCKETS
  }

  /** hash_function, with its accumulator loop over the bytes of the key. */
  method HashFunction(key: Text) returns (h: nat)
    requires NoNul(key)
    ensures h == Hash(key) && h < BUCKETS
  {
    var hash: nat := 5381;
    var i := 0;
    while i < |key|
      invariant 0 <= i <= |key|
      invariant hash == Djb2(key[..i])
    {
      assert key[..i + 1][..i] == key[..i];
      var shifted := (hash * 32) % U64;
      WrapAdd(hash * 32, hash, SignedChar(key[i]));
      hash := ((shifted + hash) % U64 + SignedChar(key[i])) % U64;
      i := i + 1;
    }
    assert key[..i] == key;
    h := hash % BUCKETS;
  }

  /** Reducing an intermediate sum modulo 2^64 does not change the final residue. */
  lemma WrapAdd(a: int, b: int, c: int)
    ensures ((a % U64 + b) % U64 + c) % U64 == (a + b + c) % U64
  {
  }

  /** The position of the first entry of `chain` whose key is `key`, or |chain|. */
  function FirstMatch(chain: seq<Entry>, key: Text): (j: nat)
    ensures j <= |chain|
    ensures j < |chain| ==> chain[j].key == key
    ensures forall k :: 0 <= k < j ==> chain[k].key != key
  {
    if chain == [] then 0
    else if chain[0].key == key then 0
    else 1 + FirstMatch(chain[1..], key)
  }

  /** get_column_index: the column of the first entry of the key's bucket that matches, or -1. */
  function Lookup(t: seq<seq<Entry>>, key: Text): int
    requires |t| == BUCKETS
  {
    var chain := t[Hash(key)];
    var j := FirstMatch(chain, key);
    if j < |chain| then chain[j].index else -1
  }

  /** insert_into_hash: the new entry becomes the head of the key's bucket. */
  function Insert(t: seq<seq<Entry>>, key: Text, index: nat): (r: seq<seq<Entry>>)
    requires |t| == BUCKETS
    ensures |r| == BUCKETS
  {
    t[Hash(key) := [Entry(key, index)] + t[Hash(key)]]
  }

  function EmptyTable(): (t: seq<seq<Entry>>)
    ensures |t| == BUCKETS
  {
    seq(BUCKETS, _ => [])
  }

  /** The table after inserting names[0], ..., names[n-1] with columns 0, ..., n-1. */
  function InsertAll(t: seq<seq<Entry>>, names: seq<Text>): (r: seq<seq<Entry>>)
    requires |t| == BUCKETS
    ensures |r| == BUCKETS
  {
    if names == [] then t
    else Insert(InsertAll(t, names[..|names| - 1]), names[|names| - 1], |names| - 1)
  }

  /** The last column whose name is `key`, or -1 when no column has that name. */
  function LastIndex(names: seq<Text>, key: Text): (r: int)
    ensures -1 <= r < |names|
    ensures r == -1 <==> key !in names
    ensures r >= 0 ==> names[r] == key && forall j :: r < j < |names| ==> names[j] != key
  {
    if names == [] then -1
    else if names[|names| - 1] == key then |names| - 1
    else
      assert forall j :: 0 <= j < |names| - 1 ==> names[..|names| - 1][j] == names[j];
      LastIndex(names[..|names| - 1], key)
  }

  /**
   * After insert(k, i), looking up k gives i (the most recent insertion wins,
   * because it sits at the head of the chain), and looking up any other name
   * gives what it gave before.
   */
  lemma LookupAfterInsert(t: seq<seq<Entry>>, key: Text, index: nat, probe: Text)
    requires |t| == BUCKETS
    ensures Lookup(Insert(t, key, index), probe) == if probe == key then index else Lookup(t, probe)
  {
    var t' := Insert(t, key, index);
    if probe != key && Hash(probe) == Hash(key) {
      var chain := t[Hash(key)];
      assert t'[Hash(probe)] == [Entry(key, index)] + chain;
      assert ([Entry(key, index)] + chain)[1..] == chain;
    }
  }

  /** A name that no entry of its own chain carries is not found: the lookup gives -1. */
  lemma LookupMissing(t: seq<seq<Entry>>, key: Text)
    requires |t| == BUCKETS
    requires forall j :: 0 <= j < |t[Hash(key)]| ==> t[Hash(key)][j].key != key
    ensures Lookup(t, key) == -1
  {
  }

  /**
   * Indexing the header names in order and then looking a name up gives the
   * last column with that name (duplicate names resolve to the most recent
   * one), or -1 when no column has it.
   */
  lemma {:induction false} LookupInsertAll(names: seq<Text>, key: Text)
    ensures Lookup(InsertAll(EmptyTable(), names), key) == LastIndex(names, key)
  {
    if names == [] {
      LookupMissing(EmptyTable(), key);
    } else {
      var init := names[..|names| - 1];
      LookupInsertAll(init, key);
      LookupAfterInsert(InsertAll(EmptyTable(), init), names[|names| - 1], |names| - 1, key);
    }
  }

  /** The index table of a CSV; `buckets[h]` is chain h. */
  class IndexTable {
    const buckets: array<seq<Entry>>

    ghost predicate Valid()
      reads this
    {
      buckets.Length == BUCKETS
    }

    /** init_csv's loop: every bucket starts empty. */
    constructor ()
      ensures Valid() && fresh(buckets) && buckets[..] == EmptyTable()
    {
      buckets := new seq<Entry>[BUCKETS](_ => []);
    }

    /** insert_into_hash */
    method InsertIntoHash(key: Text, index: nat)
      requires Valid() && NoNul(key)
      modifies buckets
      ensures buckets[..] == Insert(old(buckets[..]), key, index)
    {
      var h := HashFunction(key);
      buckets[h] := [Entry(key, index)] + buckets[h];
    }

    /** get_column_index: walks the key's chain; it reads the table and never changes it. */
    method GetColumnIndex(key: Text) returns (r: int)
      requires Valid() && NoNul(key)
      ensures r == Lookup(buckets[..], key)
    {
      var h := HashFunction(key);
      var chain := buckets[h];
      var j := 0;
      while j < |chain|
        invariant 0 <= j <= |chain|
        invariant forall k :: 0 <= k < j ==> chain[k].key != key
      {
        if chain[j].key == key {
          return chain[j].index;
        }
        j := j + 1;
      }
      return -1;
    }

    /** The header loop of parse_header: each header name is indexed under its column. */
    method IndexHeader(names: seq<Text>)
      requires Valid() && forall i :: 0 <= i < |names| ==> NoNul(names[i])
      modifies buckets
      ensures buckets[..] == InsertAll(old(buckets[..]), names)
    {
      var i := 0;
      while i < |names|
        invariant 0 <= i <= |names|
        invariant buckets[..] == InsertAll(old(buckets[..]), names[..i])
      {
        assert names[..i + 1][..i] == names[..i];
        InsertIntoHash(names[i], i);
        i := i + 1;
      }
      assert names[..i] == names;
    }
  }
}
