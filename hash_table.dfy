/** The string hash table of ds/hash_table.go: a slice of buckets, each a list of strings with the
    most recently added first, indexed by the djb2 hash of the string modulo the number of buckets.
    A nil bucket and an empty one behave alike (a list is only created to receive an element), so
    each bucket is a `seq<string>`, empty for nil. */
module HashTables {
  import opened Outcome

  /** `uint` on the 64-bit platforms Go targets. */
  const Modulus: nat := 0x1_0000_0000_0000_0000

  const HashNotFoundError := "hash not found"

  /** `byte(char)`: a rune truncated to its low 8 bits. */
  function Low8(c: char): (b: nat)
    ensures b < 256
  {
    (c as int) % 256
  }

  /** The djb2 hash: 5381, then hash * 33 + byte for each character, wrapping at 2^64. */
  function HashOf(s: string): (h: nat)
    ensures h < Modulus
  {
    if s == [] then 5381 else (HashOf(s[..|s| - 1]) * 33 + Low8(s[|s| - 1])) % Modulus
  }

  /** `(hash << 5) + hash + b` on 64-bit words: the shift drops the bits above 2^64 first, which
      the final wrap would drop anyway. */
  lemma ShiftAddIsTimes33(h: nat, b: nat)
    ensures (h * 32 % Modulus + h + b) % Modulus == (h * 33 + b) % Modulus
  {
    var q := h * 32 / Modulus;
    assert h * 32 % Modulus + h + b == (h * 33 + b) - q * Modulus;
    ModMinusMultiple(h * 33 + b, q);
  }

  /** Taking away a multiple of the modulus leaves the remainder alone. */
  lemma ModMinusMultiple(x: int, q: int)
    ensures (x - q * Modulus) % Modulus == x % Modulus
  {
    var r := x % Modulus;
    var d := x / Modulus;
    assert x - q * Modulus == (d - q) * Modulus + r;
  }

  /** `Dbj2Hash`: the loop over the characters of the input; `(hash << 5) + hash` is hash * 33
      and every step wraps at 2^64. */
  method Dbj2Hash(input: string) returns (hash: nat)
    ensures hash == HashOf(input)
  {
    hash := 5381;
    var i := 0;
    while i < |input|
      invariant 0 <= i <= |input| && hash == HashOf(input[..i])
    {
      assert input[..i + 1][..i] == input[..i];
      ShiftAddIsTimes33(hash, Low8(input[i]));
      hash := (hash * 32 % Modulus + hash + Low8(input[i])) % Modulus;
      i := i + 1;
    }
    assert input[..i] == input;
  }

  /** Adding two different bytes to the same value gives different results, wrapped or not. */
  lemma WrapKeepsDistinct(x: nat, b: nat, c: nat)
    requires b < 256 && c < 256 && b != c
    ensures (x + b) % Modulus != (x + c) % Modulus
  {
    var p, q := x + b, x + c;
    var k := p / Modulus - q / Modulus;
    assert p - q == k * Modulus + (p % Modulus - q % Modulus);
    if k >= 1 {
      assert k * Modulus >= Modulus;
    } else if k <= -1 {
      assert k * Modulus <= 0 - Modulus as int;
    }
  }

  /** Two strings that differ only in the low byte of their last character hash differently. */
  lemma LastByteDistinguishes(s: string, c: char, d: char)
    requires Low8(c) != Low8(d)
    ensures HashOf(s + [c]) != HashOf(s + [d])
  {
    HashSnoc(s, c);
    HashSnoc(s, d);
    WrapKeepsDistinct(HashOf(s) * 33, Low8(c), Low8(d));
  }

  /** Hashing one more character: the hash so far times 33 plus its low byte, wrapped. */
  lemma HashSnoc(s: string, c: char)
    ensures HashOf(s + [c]) == (HashOf(s) * 33 + Low8(c)) % Modulus
  {
    assert (s + [c])[..|s|] == s;
  }

  /** One more character, starting from a known hash. */
  lemma HashStep(s: string, c: char, h: int)
    requires HashOf(s) == h
    ensures HashOf(s + [c]) == (h * 33 + Low8(c)) % Modulus
  {
    HashSnoc(s, c);
  }

  /** The hash of "He". */
  lemma HeHash()
    ensures HashOf("He") == 5862386
  {
    HashStep("", 'H', 5381);
    assert "H" == "" + ['H'];
    HashStep("H", 'e', 177645);
    assert "He" == "H" + ['e'];
  }

  /** The hash of "Hell", character by character. */
  lemma HellHash()
    ensures HashOf("Hell") == 6384142026
  {
    HeHash();
    HashStep("He", 'l', 5862386);
    assert "Hel" == "He" + ['l'];
    HashStep("Hel", 'l', 193458846);
    assert "Hell" == "Hel" + ['l'];
  }

  /** The values the hash tests expect. */
  lemma KnownHashes()
    ensures HashOf("Hello") == 210676686969
    ensures HashOf("Hello!") == 6952330670010
  {
    HellHash();
    HashStep("Hell", 'o', 6384142026);
    assert "Hello" == "Hell" + ['o'];
    HashStep("Hello", '!', 210676686969);
    assert "Hello!" == "Hello" + ['!'];
  }

  /** Every string held in the buckets, with its multiplicity. */
  ghost function Flatten(bs: seq<seq<string>>): multiset<string>
  {
    if bs == [] then multiset{} else Flatten(bs[..|bs| - 1]) + multiset(bs[|bs| - 1])
  }

  /** A string is held exactly when some bucket holds it. */
  lemma {:induction false} InFlatten(bs: seq<seq<string>>, x: string)
    ensures x in Flatten(bs) <==> exists i :: 0 <= i < |bs| && x in bs[i]
  {
    if bs != [] {
      var front := bs[..|bs| - 1];
      InFlatten(front, x);
      if x in Flatten(front) {
        var i :| 0 <= i < |front| && x in front[i];
        assert x in bs[i];
      }
      if i :| 0 <= i < |bs| && x in bs[i] {
        if i < |front| {
          assert x in front[i];
        }
      }
    }
  }

  /** Replacing one bucket by one holding its strings and `extra` adds `extra` to the whole. */
  lemma {:induction false} FlattenAdd(bs: seq<seq<string>>, i: int, b: seq<string>, extra: multiset<string>)
    requires 0 <= i < |bs| && multiset(b) == multiset(bs[i]) + extra
    ensures Flatten(bs[i := b]) == Flatten(bs) + extra
  {
    var n := |bs| - 1;
    var cs := bs[i := b];
    if i == n {
      assert cs[..n] == bs[..n];
    } else {
      assert cs[..n] == bs[..n][i := b];
      FlattenAdd(bs[..n], i, b, extra);
    }
  }

  /** Buckets that are all empty hold nothing. */
  lemma {:induction false} FlattenEmpty(bs: seq<seq<string>>)
    requires forall i :: 0 <= i < |bs| ==> bs[i] == []
    ensures Flatten(bs) == multiset{}
  {
    if bs != [] {
      FlattenEmpty(bs[..|bs| - 1]);
    }
  }

  /** Each string sits in the bucket its hash selects. */
  ghost predicate Placed(bs: seq<seq<string>>) {
    forall i, e :: 0 <= i < |bs| && e in bs[i] ==> HashOf(e) % |bs| == i
  }

  /** `moveTableList` as a value: the list goes, whole, to the slot its head's hash selects. */
  function MoveList(t: seq<seq<string>>, list: seq<string>): seq<seq<string>>
    requires |t| > 0 && list != []
  {
    t[HashOf(list[0]) % |t| := list]
  }

  /** The loop of `resize` as a value: the non-empty lists of bs moved in order into t. */
  function MoveAll(bs: seq<seq<string>>, t: seq<seq<string>>): (r: seq<seq<string>>)
    requires |t| > 0
    ensures |r| == |t|
  {
    if bs == [] then t
    else
      var u := MoveAll(bs[..|bs| - 1], t);
      if bs[|bs| - 1] == [] then u else MoveList(u, bs[|bs| - 1])
  }

  /** n empty buckets: `make([]*List[string], n)`. */
  function EmptyBuckets(n: nat): (t: seq<seq<string>>)
    ensures |t| == n && forall i :: 0 <= i < n ==> t[i] == []
  {
    seq(n, _ => [])
  }

  /** `moveTableList`: the list is stored, whole, at the slot of its head's hash. The list is one
      that `resize` found non-nil, so it has a head. */
  method MoveTableList(table: array<seq<string>>, list: seq<string>)
    requires table.Length > 0 && list != []
    modifies table
    ensures table[..] == MoveList(old(table[..]), list)
    ensures list[0] in table[HashOf(list[0]) % table.Length]
  {
    var hash := Dbj2Hash(list[0]);
    var capacity := table.Length;
    var index := hash % capacity;
    table[index] := list;
  }

  /** `resize`, as written: a table twice as large, each non-empty list moved into it by the hash
      of its head alone. */
  method ResizeByHead(table: array<seq<string>>) returns (newTable: array<seq<string>>)
    requires table.Length > 0
    ensures fresh(newTable) && newTable.Length == 2 * table.Length
    ensures newTable[..] == MoveAll(table[..], EmptyBuckets(2 * table.Length))
  {
    newTable := new seq<string>[table.Length * 2](_ => []);
    assert newTable[..] == EmptyBuckets(2 * table.Length);
    var i := 0;
    while i < table.Length
      invariant 0 <= i <= table.Length
      invariant newTable[..] == MoveAll(table[..i], EmptyBuckets(2 * table.Length))
    {
      assert table[..i + 1][..i] == table[..i];
      var list := table[i];
      if list != [] {
        MoveTableList(newTable, list);
      }
      i := i + 1;
    }
    assert table[..i] == table[..];
  }

  /** A non-zero multiple of a positive n is at least n away from zero. */
  lemma MultipleBounds(k: int, n: int)
    requires n > 0
    ensures k >= 1 ==> k * n >= n
    ensures k <= -1 ==> k * n <= -n
  {
  }

  /** Adding a multiple of a positive n leaves the remainder modulo n alone. */
  lemma ModShift(x: int, q: int, n: int)
    requires n > 0
    ensures (x + q * n) % n == x % n
  {
    var y := x + q * n;
    var k := y / n - x / n - q;
    assert y % n - x % n == 0 - k * n;
    MultipleBounds(k, n);
  }

  /** A slot of a table twice as large lies over the slot of the smaller one: h % 2n is h % n or
      h % n + n. */
  lemma ModOfDouble(h: nat, n: nat)
    requires n > 0
    ensures (h % (2 * n)) % n == h % n
  {
    var q := h / (2 * n);
    assert h == h % (2 * n) + (2 * q) * n;
    ModShift(h % (2 * n), 2 * q, n);
  }

  /** What the table of ds/hash_table.go keeps: the head of each non-empty bucket is in the slot
      its hash selects. The strings behind a head need not be, once a resize has moved them. */
  ghost predicate HeadsPlaced(bs: seq<seq<string>>) {
    forall i :: 0 <= i < |bs| && bs[i] != [] ==> HashOf(bs[i][0]) % |bs| == i
  }

  /** The lists moved so far, from the first k slots of a table of n buckets, sit in slots of a
      table of 2n buckets that their heads select, each over one of those k slots. */
  ghost predicate MovedFrom(u: seq<seq<string>>, n: nat, k: int)
    requires n > 0
  {
    forall j :: 0 <= j < |u| && u[j] != [] ==> HashOf(u[j][0]) % (2 * n) == j && j % n < k
  }

  /** Moving the list of slot k, whose head is placed, finds its new slot empty: the slot lies
      over slot k, and the lists moved before lie over earlier slots. */
  lemma MoveNext(u: seq<seq<string>>, n: nat, k: nat, list: seq<string>)
    requires n > 0 && |u| == 2 * n && MovedFrom(u, n, k)
    requires list != [] && HashOf(list[0]) % n == k
    ensures var r := MoveList(u, list);
      MovedFrom(r, n, k + 1) && Flatten(r) == Flatten(u) + multiset(list)
  {
    var h := HashOf(list[0]);
    var j := h % (2 * n);
    ModOfDouble(h, n);
    assert j % n == k;
    assert u[j] == [];
    FlattenAdd(u, j, list, multiset(list));
    var r := u[j := list];
    forall i | 0 <= i < |r| && r[i] != []
      ensures HashOf(r[i][0]) % (2 * n) == i && i % n < k + 1
    {
      if i != j {
        assert r[i] == u[i];
      }
    }
  }

  /** Moving the lists of a table of n buckets whose heads are placed into 2n empty buckets: two
      heads from different slots never select the same new slot, so no list is overwritten and
      no string is lost, and each moved head lands in its own slot, over its old one. */
  lemma {:induction false} MoveAllKeeps(bs: seq<seq<string>>, n: nat)
    requires 0 < n && |bs| <= n
    requires forall i :: 0 <= i < |bs| && bs[i] != [] ==> HashOf(bs[i][0]) % n == i
    ensures var r := MoveAll(bs, EmptyBuckets(2 * n));
      Flatten(r) == Flatten(bs) && MovedFrom(r, n, |bs|)
  {
    var e := EmptyBuckets(2 * n);
    if bs == [] {
      FlattenEmpty(e);
    } else {
      var k := |bs| - 1;
      var front := bs[..k];
      assert forall i :: 0 <= i < |front| ==> front[i] == bs[i];
      MoveAllKeeps(front, n);
      var u := MoveAll(front, e);
      assert Flatten(bs) == Flatten(front) + multiset(bs[k]);
      if bs[k] != [] {
        MoveNext(u, n, k, bs[k]);
      }
    }
  }

  /** The as-written resize of a table whose heads are placed keeps every string, and the heads
      of the doubled table are placed in turn. */
  lemma ResizeByHeadKeeps(bs: seq<seq<string>>)
    requires |bs| > 0 && HeadsPlaced(bs)
    ensures var r := MoveAll(bs, EmptyBuckets(2 * |bs|));
      |r| == 2 * |bs| && Flatten(r) == Flatten(bs) && HeadsPlaced(r)
  {
    MoveAllKeeps(bs, |bs|);
  }

  /** The buckets after `Add(s)` on buckets bs that hold len strings: moved by head into twice
      as many buckets first when one more string would fill more than half of them, then s put
      in front of the bucket its hash selects. */
  function Added(bs: seq<seq<string>>, len: int, s: string): seq<seq<string>>
    requires |bs| > 0
  {
    var t := if len + 1 > |bs| / 2 then MoveAll(bs, EmptyBuckets(2 * |bs|)) else bs;
    var i := HashOf(s) % |t|;
    t[i := [s] + t[i]]
  }

  /** The table that adding "A", "K", "B", "C" and "D" to a new table builds: "A" and "K" share
      bucket 8 ("K" at its head), "B", "C" and "D" sit in buckets 9, 0 and 1. */
  function FiveAdded(): seq<seq<string>> {
    EmptyBuckets(10)[8 := ["K", "A"]][9 := ["B"]][0 := ["C"]][1 := ["D"]]
  }

  /** A slot that no non-empty list's head selects keeps what it held. */
  lemma {:induction false} MoveAllUntouched(bs: seq<seq<string>>, t: seq<seq<string>>, j: int)
    requires |t| > 0 && 0 <= j < |t|
    requires forall k :: 0 <= k < |bs| && bs[k] != [] ==> HashOf(bs[k][0]) % |t| != j
    ensures MoveAll(bs, t)[j] == t[j]
  {
    if bs != [] {
      MoveAllUntouched(bs[..|bs| - 1], t, j);
    }
  }

  /** A non-empty list lands, whole, in the slot its head selects, unless a later list's head
      selects the same slot and overwrites it. */
  lemma {:induction false} MoveAllLands(bs: seq<seq<string>>, t: seq<seq<string>>, k: int)
    requires |t| > 0 && 0 <= k < |bs| && bs[k] != []
    requires forall k' :: k < k' < |bs| && bs[k'] != [] ==> HashOf(bs[k'][0]) % |t| != HashOf(bs[k][0]) % |t|
    ensures MoveAll(bs, t)[HashOf(bs[k][0]) % |t|] == bs[k]
  {
    var n := |bs| - 1;
    if k < n {
      assert bs[..n][k] == bs[k];
      MoveAllLands(bs[..n], t, k);
    }
  }

  /** A one-character string hashes to 5381 * 33 plus the character's low byte. */
  lemma SingleCharHash(c: char)
    ensures HashOf([c]) == 177573 + Low8(c)
  {
    assert [c][..0] == [];
  }

  /** The hashes of the one-letter strings of the example below. */
  lemma LetterHashes()
    ensures HashOf("A") == 177638 && HashOf("K") == 177648
    ensures HashOf("B") == 177639 && HashOf("C") == 177640 && HashOf("D") == 177641
  {
    SingleCharHash('A');
    SingleCharHash('K');
    SingleCharHash('B');
    SingleCharHash('C');
    SingleCharHash('D');
  }

  /** Before the resize, every string of the example table is where its hash says. */
  lemma FiveAddedPlaced()
    ensures Placed(FiveAdded())
  {
    var t := FiveAdded();
    LetterHashes();
    assert |t| == 10;
    forall i, e | 0 <= i < |t| && e in t[i]
      ensures HashOf(e) % |t| == i
    {
      if i == 8 {
        assert e == "K" || e == "A";
      } else if i == 9 {
        assert e == "B";
      } else if i == 0 {
        assert e == "C";
      } else if i == 1 {
        assert e == "D";
      } else {
        assert false;
      }
    }
  }

  /** Adding "A" to a new table puts it in slot 8. */
  lemma AddA()
    ensures Added(EmptyBuckets(10), 0, "A") == EmptyBuckets(10)[8 := ["A"]]
  {
    LetterHashes();
    var e := EmptyBuckets(10);
    assert HashOf("A") % |e| == 8;
    assert ["A"] + e[8] == ["A"];
  }

  /** "K" joins "A" in slot 8, in front of it. */
  lemma AddK()
    ensures Added(EmptyBuckets(10)[8 := ["A"]], 1, "K") == EmptyBuckets(10)[8 := ["K", "A"]]
  {
    LetterHashes();
    assert ["K"] + ["A"] == ["K", "A"];
  }

  /** "B" goes to slot 9. */
  lemma AddB()
    ensures Added(EmptyBuckets(10)[8 := ["K", "A"]], 2, "B") == EmptyBuckets(10)[8 := ["K", "A"]][9 := ["B"]]
  {
    LetterHashes();
    var t := EmptyBuckets(10)[8 := ["K", "A"]];
    assert HashOf("B") % |t| == 9;
    assert ["B"] + t[9] == ["B"];
  }

  /** "C" goes to slot 0. */
  lemma AddC()
    ensures Added(EmptyBuckets(10)[8 := ["K", "A"]][9 := ["B"]], 3, "C")
      == EmptyBuckets(10)[8 := ["K", "A"]][9 := ["B"]][0 := ["C"]]
  {
    LetterHashes();
    var t := EmptyBuckets(10)[8 := ["K", "A"]][9 := ["B"]];
    assert HashOf("C") % |t| == 0;
    assert ["C"] + t[0] == ["C"];
  }

  /** "D" goes to slot 1, and the table is full enough that the next `Add` resizes it. */
  lemma AddD()
    ensures Added(EmptyBuckets(10)[8 := ["K", "A"]][9 := ["B"]][0 := ["C"]], 4, "D") == FiveAdded()
  {
    LetterHashes();
    var t := EmptyBuckets(10)[8 := ["K", "A"]][9 := ["B"]][0 := ["C"]];
    assert HashOf("D") % |t| == 1;
    assert ["D"] + t[1] == ["D"];
  }

  /** The hash of "E". */
  lemma HashOfE()
    ensures HashOf("E") == 177642
  {
    SingleCharHash('E');
  }

  /** The as-written resize of the five-string table: [K, A] goes to slot 8 of 20, the slot of
      "K", and nothing goes to slot 18, the slot of "A". */
  lemma ResizeFiveAdded()
    ensures var u := MoveAll(FiveAdded(), EmptyBuckets(20));
      |u| == 20 && u[8] == ["K", "A"] && u[18] == []
  {
    FiveAddedPlaced();
    LetterHashes();
    var t, e := FiveAdded(), EmptyBuckets(20);
    MoveAllUntouched(t, e, 18);
    MoveAllLands(t, e, 8);
  }

  /** Moving lists by their heads strands elements. Adding "A", "K", "B", "C" and "D" builds a
      table whose every string is where its hash says. Adding "E" then resizes it by head: [K, A]
      goes to slot 8 of 20, the slot of "K", while "A" hashes to slot 18, which stays empty. So
      "A" is stored, yet looking it up by its hash fails. */
  lemma ResizeByHeadStrandsElement()
    ensures Placed(FiveAdded())
    ensures var r := Added(FiveAdded(), 5, "E");
      |r| == 20 && "A" in Flatten(r) && HashOf("A") % 20 == 18 && r[18] == [] && !Placed(r)
  {
    FiveAddedPlaced();
    ResizeFiveAdded();
    LetterHashes();
    HashOfE();
    var u := MoveAll(FiveAdded(), EmptyBuckets(20));
    var r := Added(FiveAdded(), 5, "E");
    assert r == u[2 := ["E"] + u[2]];
    assert "A" in r[8] && r[18] == [];
    InFlatten(r, "A");
  }

  /** `HashTable`, as written: `Add` resizes by moving whole lists by the hash of their heads. */
  class HashTable {
    var table: array<seq<string>>
    var len: int

    /** `len` counts the stored strings, the head of each bucket is in the slot its hash selects,
        and the table, never below 10 buckets, is at most half full. */
    ghost predicate Valid()
      reads this, table
    {
      && table.Length >= 10
      && len == |Flatten(table[..])|
      && 2 * len <= table.Length
      && HeadsPlaced(table[..])
    }

    /** The strings held, with multiplicity. */
    ghost function Contents(): multiset<string>
      reads this, table
    {
      Flatten(table[..])
    }

    /** `NewHashTable`: 10 empty buckets. */
    constructor ()
      ensures Valid() && fresh(table) && table[..] == EmptyBuckets(10) && len == 0
      ensures Contents() == multiset{}
    {
      table := new seq<string>[10](_ => []);
      len := 0;
      new;
      assert table[..] == EmptyBuckets(10);
      FlattenEmpty(table[..]);
    }

    /** `Len`: the number of strings added. */
    function Len(): (n: int)
      reads this, table
      requires Valid()
      ensures n == |Contents()|
    {
      len
    }

    /** `Cap`: the number of buckets, at least twice the number of strings. */
    function Cap(): (c: int)
      reads this, table
      requires Valid()
      ensures c >= 10 && c >= 2 * Len()
    {
      table.Length
    }

    /** `Get`: the head of the bucket the hash selects, or an error when it is empty. What comes
        back is a stored string in that bucket; the error comes exactly when no bucket's head
        hashes to it, even if a stored string further down some list does. */
    function Get(hash: nat): (r: Result<string>)
      reads this, table
      requires Valid()
      ensures r.Ok? ==> r.value in Contents() && HashOf(r.value) % table.Length == hash % table.Length
      ensures r.Err? <==> forall i :: 0 <= i < table.Length && table[i] != [] ==>
                            HashOf(table[i][0]) % table.Length != hash % table.Length
      ensures r.Err? ==> r == Err(HashNotFoundError)
    {
      var index := hash % table.Length;
      var list := table[index];
      if list == [] then
        Err(HashNotFoundError)
      else
        assert list[0] in table[..][index];
        InFlatten(table[..], list[0]);
        Ok(list[0])
    }

    /** `resize`, as written: the buckets are replaced by a table twice as large into which each
        non-empty list is moved whole, by the hash of its head. Every string is kept. */
    method Resize()
      requires Valid()
      modifies this
      ensures fresh(table) && table[..] == MoveAll(old(table[..]), EmptyBuckets(2 * old(table.Length)))
      ensures table.Length == 2 * old(table.Length) && len == old(len)
      ensures Valid() && Contents() == old(Contents())
    {
      ResizeByHeadKeeps(table[..]);
      table := ResizeByHead(table);
    }

    /** `Add`: grows the table first when one more string would fill more than half of it, then
        puts the string at the head of the bucket its hash selects. */
    method Add(s: string)
      requires Valid()
      modifies this, table
      ensures table[..] == Added(old(table[..]), old(len), s) && len == old(len) + 1
      ensures Valid() && Contents() == old(Contents()) + multiset{s}
      ensures old(len) + 1 > old(table.Length) / 2 ==> fresh(table) && table.Length == 2 * old(table.Length)
      ensures old(len) + 1 <= old(table.Length) / 2 ==> table == old(table)
      ensures Get(HashOf(s)) == Ok(s)
    {
      var hash := Dbj2Hash(s);
      var capacity := table.Length;
      if len + 1 > capacity / 2 {
        Resize();
        capacity := table.Length;
      }
      var index := hash % capacity;
      ghost var before := table[..];
      var b := [s] + table[index];
      FlattenAdd(before, index, b, multiset{s});
      table[index] := b;
      len := len + 1;
      assert table[..] == before[index := b];
    }
  }

  /** "A" and "K" added to a new table. */
  method TwoAdds() returns (h: HashTable)
    ensures fresh(h) && fresh(h.table) && h.Valid() && h.len == 2
    ensures h.table[..] == EmptyBuckets(10)[8 := ["K", "A"]]
  {
    h := new HashTable();
    h.Add("A");
    AddA();
    h.Add("K");
    AddK();
  }

  /** "A", "K", "B", "C" and "D" added to a new table, in that order. */
  method FiveAdds() returns (h: HashTable)
    ensures fresh(h) && fresh(h.table) && h.Valid() && h.len == 5 && h.table[..] == FiveAdded()
  {
    h := TwoAdds();
    h.Add("B");
    AddB();
    h.Add("C");
    AddC();
    h.Add("D");
    AddD();
  }

  /** A sixth string added to that table: "A" is stored, yet `Get` by its hash reports it
      missing. */
  method StrandingScenario() returns (h: HashTable)
    ensures h.Valid() && h.Len() == 6 && "A" in h.Contents()
    ensures h.Get(HashOf("A")) == Err(HashNotFoundError)
  {
    h := FiveAdds();
    h.Add("E");
    ghost var r := Added(FiveAdded(), 5, "E");
    assert h.table[..] == r;
    ResizeByHeadStrandsElement();
    assert h.table.Length == 20 && h.table[..][18] == [];
  }

  /** The hash table with a corrected `resize`, which rehashes every string on its own, so that
      every string, not just the head of each list, is in the slot its hash selects. */
  class RehashingHashTable {
    var table: array<seq<string>>
    var len: int

    /** As for `HashTable`, with every string placed by its own hash. */
    ghost predicate Valid()
      reads this, table
    {
      && table.Length >= 10
      && len == |Flatten(table[..])|
      && 2 * len <= table.Length
      && Placed(table[..])
    }

    /** The strings held, with multiplicity. */
    ghost function Contents(): multiset<string>
      reads this, table
    {
      Flatten(table[..])
    }

    /** 10 empty buckets. */
    constructor ()
      ensures Valid() && fresh(table) && table.Length == 10 && Contents() == multiset{}
    {
      table := new seq<string>[10](_ => []);
      len := 0;
      new;
      FlattenEmpty(table[..]);
    }

    /** The head of the bucket the hash selects. Here a string comes back exactly when some
        stored string hashes to the same bucket, and it is one of them. */
    function Get(hash: nat): (r: Result<string>)
      reads this, table
      requires Valid()
      ensures r.Ok? ==> r.value in Contents() && HashOf(r.value) % table.Length == hash % table.Length
      ensures r.Err? <==> forall e :: e in Contents() ==> HashOf(e) % table.Length != hash % table.Length
      ensures r.Err? ==> r == Err(HashNotFoundError)
    {
      var list := table[hash % table.Length];
      InFlatten(table[..], "");
      if list == [] then
        assert forall e :: e in Contents() ==> HashOf(e) % table.Length != hash % table.Length by {
          forall e | e in Contents() ensures HashOf(e) % table.Length != hash % table.Length {
            InFlatten(table[..], e);
          }
        }
        Err(HashNotFoundError)
      else
        assert list[0] in table[..][hash % table.Length];
        InFlatten(table[..], list[0]);
        Ok(list[0])
    }

    /** The corrected resize: the buckets are replaced by a table twice as large in which every
        string is rehashed on its own. */
    method Resize()
      requires Valid()
      modifies this
      ensures fresh(table) && table.Length == 2 * old(table.Length) && len == old(len)
      ensures Placed(table[..]) && Contents() == old(Contents())
    {
      table := ResizeRehashing(table);
    }

    /** `Add` over the corrected resize: every string stays findable by its hash. */
    method Add(s: string)
      requires Valid()
      modifies this, table
      ensures Valid() && len == old(len) + 1
      ensures Contents() == old(Contents()) + multiset{s}
      ensures old(len) + 1 > old(table.Length) / 2 ==> fresh(table) && table.Length == 2 * old(table.Length)
      ensures old(len) + 1 <= old(table.Length) / 2 ==> table == old(table)
      ensures Get(HashOf(s)) == Ok(s)
    {
      var hash := Dbj2Hash(s);
      var capacity := table.Length;
      if len + 1 > capacity / 2 {
        Resize();
        capacity := table.Length;
      }
      var index := hash % capacity;
      ghost var before := table[..];
      var b := [s] + table[index];
      PlacedUpdate(before, index, b);
      FlattenAdd(before, index, b, multiset{s});
      table[index] := b;
      len := len + 1;
      assert table[..] == before[index := b];
    }
  }

  /** A prefix one longer is the prefix and the next string. */
  lemma PrefixSnoc(list: seq<string>, j: int)
    requires 0 <= j < |list|
    ensures list[..j + 1] == list[..j] + [list[j]]
  {
  }

  /** Putting strings that all hash to slot `index` there keeps every string in its slot. */
  lemma PlacedUpdate(bs: seq<seq<string>>, index: int, b: seq<string>)
    requires Placed(bs) && 0 <= index < |bs|
    requires forall e :: e in b ==> HashOf(e) % |bs| == index
    ensures Placed(bs[index := b])
  {
  }

  /** The strings of one bucket, each put into the bucket of the new table its hash selects. */
  method Rehash(newTable: array<seq<string>>, list: seq<string>)
    requires newTable.Length > 0 && Placed(newTable[..])
    modifies newTable
    ensures Placed(newTable[..])
    ensures Flatten(newTable[..]) == old(Flatten(newTable[..])) + multiset(list)
  {
    ghost var m0 := Flatten(newTable[..]);
    var j := 0;
    while j < |list|
      invariant 0 <= j <= |list| && Placed(newTable[..])
      invariant Flatten(newTable[..]) == m0 + multiset(list[..j])
    {
      var e := list[j];
      var index := HashOf(e) % newTable.Length;
      ghost var before := newTable[..];
      var b := newTable[index] + [e];
      PlacedUpdate(before, index, b);
      FlattenAdd(before, index, b, multiset{e});
      newTable[index] := b;
      assert newTable[..] == before[index := b];
      PrefixSnoc(list, j);
      j := j + 1;
    }
    assert list[..j] == list;
  }

  /** `resize`, corrected: a table twice as large, each string of each bucket rehashed into it
      on its own, so every string lands in the bucket of its own hash and none is lost. */
  method ResizeRehashing(table: array<seq<string>>) returns (newTable: array<seq<string>>)
    requires table.Length > 0
    ensures fresh(newTable) && newTable.Length == 2 * table.Length
    ensures Placed(newTable[..]) && Flatten(newTable[..]) == Flatten(table[..])
  {
    newTable := new seq<string>[table.Length * 2](_ => []);
    FlattenEmpty(newTable[..]);
    var i := 0;
    while i < table.Length
      invariant 0 <= i <= table.Length
      invariant Placed(newTable[..]) && Flatten(newTable[..]) == Flatten(table[..i])
    {
      assert table[..i + 1][..i] == table[..i];
      Rehash(newTable, table[i]);
      i := i + 1;
    }
    assert table[..i] == table[..];
  }
}
