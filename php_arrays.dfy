/**
 * Ordered PHP arrays, as far as PhpBrowser uses them: the module config, the
 * Guzzle defaults it builds and the curl option array.
 *
 * A PHP array is a sequence of entries in insertion order. Writing to a key
 * that is present replaces its value in place; writing to a new key appends.
 * Keys are integers or strings.
 */
module PhpArrays {
  import opened Wrappers

  datatype Key = IntKey(n: int) | StrKey(name: string)

  datatype Value = Null | Bool(b: bool) | Int(i: int) | Str(s: string) | Arr(entries: seq<Entry>)

  datatype Entry = Entry(key: Key, val: Value)

  /** The keys of an array, in order. */
  function Keys(a: seq<Entry>): (r: seq<Key>)
    ensures |r| == |a| && forall i :: 0 <= i < |a| ==> r[i] == a[i].key
  {
    if a == [] then [] else [a[0].key] + Keys(a[1..])
  }

  /** Every PHP array has pairwise different keys. */
  predicate UniqueKeys(a: seq<Entry>) {
    forall i, j :: 0 <= i < j < |a| ==> a[i].key != a[j].key
  }

  /** $a[$k], or None where the key is missing. */
  function Get(a: seq<Entry>, k: Key): Option<Value> {
    if a == [] then None
    else if a[0].key == k then Some(a[0].val)
    else Get(a[1..], k)
  }

  /** A key reads as present exactly when it is one of the keys. */
  lemma {:induction false} GetKeys(a: seq<Entry>, k: Key)
    ensures Get(a, k).Some? <==> k in Keys(a)
  {
    if a != [] {
      GetKeys(a[1..], k);
      assert Keys(a) == [a[0].key] + Keys(a[1..]);
    }
  }

  /** The value of a key in an array with unique keys is the one its entry holds. */
  lemma {:induction false} GetEntry(a: seq<Entry>, i: nat)
    requires UniqueKeys(a) && i < |a|
    ensures Get(a, a[i].key) == Some(a[i].val)
  {
    if i > 0 {
      assert a[0].key != a[i].key;
      GetEntry(a[1..], i - 1);
    }
  }

  /** $a[$k] = $v: replaces the value of a present key in place, or appends. */
  function Put(a: seq<Entry>, k: Key, v: Value): (r: seq<Entry>)
    ensures k in Keys(a) ==> Keys(r) == Keys(a)
    ensures k !in Keys(a) ==> Keys(r) == Keys(a) + [k]
  {
    if a == [] then [Entry(k, v)]
    else if a[0].key == k then [Entry(k, v)] + a[1..]
    else [a[0]] + Put(a[1..], k, v)
  }

  /** After $a[$k] = $v, $a[$k] is v and every other key reads as before. */
  lemma {:induction false} PutGet(a: seq<Entry>, k: Key, v: Value, j: Key)
    ensures Get(Put(a, k, v), j) == if j == k then Some(v) else Get(a, j)
  {
    if a != [] && a[0].key != k {
      PutGet(a[1..], k, v, j);
      assert Put(a, k, v)[1..] == Put(a[1..], k, v);
    }
  }

  /** Writing a key keeps the keys unique. */
  lemma PutUnique(a: seq<Entry>, k: Key, v: Value)
    requires UniqueKeys(a)
    ensures UniqueKeys(Put(a, k, v))
  {
    var r := Put(a, k, v);
    forall i, j | 0 <= i < j < |r| ensures r[i].key != r[j].key {
      assert Keys(r)[i] == r[i].key && Keys(r)[j] == r[j].key;
    }
  }

  /* ---------------------------------------------------------------------- */
  /* Keys as strings                                                         */
  /* ---------------------------------------------------------------------- */

  /** The number a string of decimal digits spells, most significant first. */
  function DecimalValue(s: string): int
    decreases |s|
  {
    if s == [] then 0 else 10 * DecimalValue(s[..|s| - 1]) + (s[|s| - 1] as int - 48)
  }

  /** The decimal digits of n, without leading zeros. */
  function NatToString(n: nat): (r: string)
    ensures |r| > 0 && forall i :: 0 <= i < |r| ==> '0' <= r[i] <= '9'
    ensures DecimalValue(r) == n && (|r| > 1 ==> r[0] != '0')
    decreases n
  {
    var d := [(48 + n % 10) as char];
    if n < 10 then d
    else
      var h := NatToString(n / 10);
      assert (h + d)[..|h + d| - 1] == h;
      h + d
  }

  /** (string) $k: what array_intersect_key compares keys by. */
  function KeyString(k: Key): (r: string)
    ensures k.IntKey? ==> |r| > 0 && (r[0] == '-' || '0' <= r[0] <= '9')
  {
    match k
    case StrKey(name) => name
    case IntKey(n) => if n < 0 then "-" + NatToString(-n) else NatToString(n)
  }
}
