/** When alias insertion ends, when the keys are distinct, and what distinct keys give the reader of a row. */
module AliasTheorems {
  import opened MachineTypes
  import opened NumericText
  import opened ScaledPrinter
  import opened Messages
  import opened ParameterCodec
  import opened BindMeaning
  import opened ResultRows

  /* ----- Termination of one insertion ----- */

  /** The text of a suffix number below 100 has two digits. */
  lemma TwoDigits(i: nat)
    requires i < 100
    ensures |ZeroPadded(2, i)| == 2 && AllDigits(ZeroPadded(2, i)) && Val(ZeroPadded(2, i)) == i
  {
    assert Pow10(2) == 100;
    ZeroPaddedIs(2, i);
  }

  /** A longer suffix number is cut to its first two digits, a number from 10 to 99. */
  lemma {:induction false} CutSuffix(i: nat) returns (j: nat)
    requires i >= 10
    ensures 10 <= j < 100 && |DecText(i)| >= 2 && DecText(i)[..2] == DecText(j)
  {
    if i < 100 {
      j := i;
      assert |DecText(i / 10)| == 1;
    } else {
      j := CutSuffix(i / 10);
      assert DecText(i)[..2] == DecText(i / 10)[..2];
    }
  }

  /** The truncated key is the alias, an underscore and the first two suffix characters. */
  lemma CandidateText(alias: PhpString, i: nat)
    requires alias != [] && i > 0
    ensures |ZeroPadded(2, i)| >= 2
    ensures Candidate(alias, i) == alias + "_" + ZeroPadded(2, i)[..2]
  {
  }

  lemma SmallCandidateText(alias: PhpString, i: nat)
    requires alias != [] && 0 < i < 100
    ensures Candidate(alias, i) == alias + "_" + ZeroPadded(2, i)
  {
    TwoDigits(i);
    CandidateText(alias, i);
  }

  /** From the hundredth try on, only keys tried before come up again. */
  lemma LaterCandidatesRepeat(alias: PhpString, i: nat) returns (j: nat)
    requires i >= 100
    ensures j < 100 && Candidate(alias, i) == Candidate(alias, j)
  {
    if alias == [] {
      j := 0;
      var field: PhpString := "FIELD";
      assert Candidate(alias, i) == field[..3] == Candidate(alias, 0);
    } else {
      j := CutSuffix(i);
      assert |DecText(j)| == 2;
      CandidateText(alias, i);
      CandidateText(alias, j);
    }
  }

  /** The lookup loop ends if and only if one of the first hundred candidates is free. */
  lemma LoopEnds(keys: seq<PhpString>, alias: PhpString)
    ensures (exists i: nat :: !Found(keys, Candidate(alias, i))) <==> Insertable(keys, alias)
  {
    if exists i: nat :: !Found(keys, Candidate(alias, i)) {
      var i: nat :| !Found(keys, Candidate(alias, i));
      if i >= 100 {
        var j := LaterCandidatesRepeat(alias, i);
        assert !Found(keys, Candidate(alias, j));
      }
    }
  }

  /** An empty alias always tries the key "FIE". */
  lemma EmptyAlias(keys: seq<PhpString>)
    ensures Insertable(keys, []) <==> "FIE" !in keys
    ensures Insertable(keys, []) ==> KeyFor(keys, []) == "FIE"
  {
    var field: PhpString, fie: PhpString := "FIELD", "FIE";
    forall i: nat ensures Candidate([], i) == fie {
      assert Suffixed(field, i)[..3] == field[..3];
    }
    assert !IsDigit(fie[0]) && !IsIndexText(fie);
    if fie !in keys {
      assert !Found(keys, Candidate([], 0));
    }
  }

  /** The key is the alias itself, or the alias with the least two-digit suffix still free. */
  lemma KeyShape(keys: seq<PhpString>, alias: PhpString) returns (k: nat)
    requires alias != [] && Insertable(keys, alias)
    ensures k < 100 && !Found(keys, KeyFor(keys, alias))
    ensures k == 0 ==> KeyFor(keys, alias) == alias
    ensures k > 0 ==> KeyFor(keys, alias) == alias + "_" + ZeroPadded(2, k) && Found(keys, alias)
    ensures forall m :: 0 < m < k ==> Found(keys, alias + "_" + ZeroPadded(2, m))
  {
    hide Found, ZeroPadded;
    k := LeastFree(keys, alias, 0);
    assert Candidate(alias, 0) == alias;
    if k > 0 {
      SmallCandidateText(alias, k);
      forall m | 0 < m < k ensures Found(keys, alias + "_" + ZeroPadded(2, m)) {
        SmallCandidateText(alias, m);
      }
    }
  }

  /* ----- How many aliases can be inserted ----- */

  lemma CandidatesDiffer(alias: PhpString, i: nat, j: nat)
    requires alias != [] && i < j < 100
    ensures Candidate(alias, i) != Candidate(alias, j)
  {
    TwoDigits(j);
    CandidateText(alias, j);
    if i > 0 {
      TwoDigits(i);
      CandidateText(alias, i);
      var n := |alias| + 1;
      assert Candidate(alias, i)[n..] == ZeroPadded(2, i);
      assert Candidate(alias, j)[n..] == ZeroPadded(2, j);
    }
  }

  function FirstCandidates(alias: PhpString, n: nat): set<PhpString> {
    if n == 0 then {} else FirstCandidates(alias, n - 1) + {Candidate(alias, n - 1)}
  }

  lemma {:induction false} FirstCandidatesAre(alias: PhpString, n: nat)
    requires alias != [] && n <= 100
    ensures |FirstCandidates(alias, n)| == n
    ensures forall k :: k in FirstCandidates(alias, n) ==> exists i :: 0 <= i < n && k == Candidate(alias, i)
  {
    if n != 0 {
      FirstCandidatesAre(alias, n - 1);
      forall i | 0 <= i < n - 1 ensures Candidate(alias, i) != Candidate(alias, n - 1) {
        CandidatesDiffer(alias, i, n - 1);
      }
    }
  }

  function Elements(keys: seq<PhpString>): (s: set<PhpString>)
    ensures |s| <= |keys|
    ensures forall k :: k in keys ==> k in s
  {
    if keys == [] then {} else Elements(keys[1..]) + {keys[0]}
  }

  /** Pigeonhole: fewer than a hundred keys leave one of a hundred candidates free. */
  lemma FewKeysInsertable(keys: seq<PhpString>, alias: PhpString)
    requires alias != [] && |keys| < 100
    ensures Insertable(keys, alias)
  {
    hide Candidate, Found;
    if !Insertable(keys, alias) {
      var tried := FirstCandidates(alias, 100);
      FirstCandidatesAre(alias, 100);
      forall k | k in tried ensures k in Elements(keys) {
        var i :| 0 <= i < 100 && k == Candidate(alias, i);
        FoundIsIn(keys, Candidate(alias, i));
      }
      SubsetSize(tried, Elements(keys));
    }
  }

  lemma FoundIsIn(keys: seq<PhpString>, key: PhpString)
    ensures Found(keys, key) ==> key in keys
  {
  }

  lemma SubsetSize<T>(a: set<T>, b: set<T>)
    requires a <= b
    ensures |a| <= |b|
  {
    assert b == a + (b - a);
  }

  lemma {:induction false} HundredAliasesFit(aliases: seq<PhpString>)
    requires |aliases| <= 100 && forall i :: 0 <= i < |aliases| ==> aliases[i] != []
    ensures Keys(aliases).Some?
  {
    if aliases != [] {
      var n := |aliases| - 1;
      HundredAliasesFit(aliases[..n]);
      KeysLength(aliases[..n]);
      FewKeysInsertable(Keys(aliases[..n]).value, aliases[n]);
    }
  }

  const A: PhpString := "A"

  function Copies(n: nat): (s: seq<PhpString>)
    ensures |s| == n && forall i :: 0 <= i < n ==> s[i] == A
  {
    seq(n, _ => A)
  }

  lemma CandidateOfA(i: nat)
    requires i < 100
    ensures !IsIndexText(Candidate(A, i))
  {
    if i > 0 {
      CandidateText(A, i);
    }
    assert Candidate(A, i)[0] == 'A' && !IsDigit('A');
  }

  lemma TakenCandidate(keys: seq<PhpString>, i: nat)
    requires i < 100 && i < |keys| && keys[i] == Candidate(A, i)
    ensures Found(keys, Candidate(A, i))
  {
    CandidateOfA(i);
  }

  function CopyKeys(n: nat): (s: seq<PhpString>)
    ensures |s| == n && forall i :: 0 <= i < n ==> s[i] == Candidate(A, i)
  {
    seq(n, i requires 0 <= i < n => Candidate(A, i))
  }

  lemma NextCopyKey(m: nat)
    requires m < 100
    ensures Insertable(CopyKeys(m), A) && KeyFor(CopyKeys(m), A) == Candidate(A, m)
  {
    hide Candidate, Found;
    var keys := CopyKeys(m);
    FewKeysInsertable(keys, A);
    forall i | 0 <= i < m ensures Found(keys, Candidate(A, i)) && Candidate(A, i) != Candidate(A, m) {
      TakenCandidate(keys, i);
      CandidatesDiffer(A, i, m);
    }
    assert Candidate(A, m) !in keys;
    FoundIsIn(keys, Candidate(A, m));
  }

  /** Copies of one alias take its candidates in order. */
  lemma {:induction false} KeysOfCopies(n: nat)
    requires n <= 100
    ensures Keys(Copies(n)) == Some(CopyKeys(n))
  {
    hide Candidate, Found, Insertable, KeyFor;
    if n == 0 {
      assert Copies(n) == [] && CopyKeys(n) == [];
    } else {
      var m := n - 1;
      assert Copies(n)[..m] == Copies(m) && Copies(n)[m] == A;
      KeysOfCopies(m);
      NextCopyKey(m);
      assert CopyKeys(m) + [Candidate(A, m)] == CopyKeys(n);
    }
  }

  lemma {:induction false} TooManyCopies(n: nat)
    requires n > 100
    ensures Keys(Copies(n)) == None
  {
    hide Candidate, Found;
    assert Copies(n)[..n - 1] == Copies(n - 1) && Copies(n)[n - 1] == A;
    if n > 101 {
      TooManyCopies(n - 1);
    } else {
      KeysOfCopies(100);
      var keys := Keys(Copies(100)).value;
      forall i | 0 <= i < 100 ensures Found(keys, Candidate(A, i)) {
        TakenCandidate(keys, i);
      }
      assert !Insertable(keys, A);
    }
  }

  /** Every list of n non-empty aliases gets its keys if and only if n is at most 100. */
  lemma AliasBudget(n: nat)
    ensures (forall aliases: seq<PhpString> ::
               |aliases| == n && (forall i :: 0 <= i < n ==> aliases[i] != []) ==> Keys(aliases).Some?)
            <==> n <= 100
  {
    if n <= 100 {
      forall aliases: seq<PhpString> | |aliases| == n && (forall i :: 0 <= i < n ==> aliases[i] != [])
        ensures Keys(aliases).Some?
      {
        HundredAliasesFit(aliases);
      }
    } else {
      TooManyCopies(n);
    }
  }

  /* ----- Key by key ----- */

  /**
   The keys of a list, one by one: an alias the table does not find yet is taken as it is; one it finds
   gets the least two-digit suffix that makes a name not found yet; an empty one becomes "FIE".
   */
  lemma EachKey(aliases: seq<PhpString>, keys: seq<PhpString>, i: nat) returns (k: nat)
    requires Keys(aliases) == Some(keys) && i < |aliases|
    ensures |keys| == |aliases| && k < 100
    ensures aliases[i] == [] ==> keys[i] == "FIE" && "FIE" !in keys[..i]
    ensures aliases[i] != [] && !Found(keys[..i], aliases[i]) ==> keys[i] == aliases[i]
    ensures aliases[i] != [] && Found(keys[..i], aliases[i]) ==>
              && k > 0 && keys[i] == aliases[i] + "_" + ZeroPadded(2, k) && !Found(keys[..i], keys[i])
              && forall m :: 0 < m < k ==> Found(keys[..i], aliases[i] + "_" + ZeroPadded(2, m))
  {
    hide Found, KeyFor, Insertable, Candidate;
    KeysLength(aliases);
    KeyAt(aliases, keys, i);
    if aliases[i] == [] {
      k := 0;
      EmptyAlias(keys[..i]);
    } else {
      k := KeyShape(keys[..i], aliases[i]);
    }
  }

  lemma {:induction false} KeyAt(aliases: seq<PhpString>, keys: seq<PhpString>, i: nat)
    requires Keys(aliases) == Some(keys) && i < |aliases| == |keys|
    ensures Insertable(keys[..i], aliases[i]) && keys[i] == KeyFor(keys[..i], aliases[i])
  {
    hide KeyFor, Insertable;
    var n := |aliases| - 1;
    var init := Keys(aliases[..n]).value;
    KeysLength(aliases[..n]);
    assert keys[..n] == init;
    if i < n {
      KeyAt(aliases[..n], init, i);
      assert keys[..i] == init[..i];
    }
  }

  /* ----- Distinct keys ----- */

  ghost predicate Distinct(keys: seq<PhpString>) {
    forall i, j :: 0 <= i < j < |keys| ==> keys[i] != keys[j]
  }

  /** No integer-like alias occurs twice. */
  ghost predicate IndexAliasesDistinct(aliases: seq<PhpString>) {
    forall i, j :: 0 <= i < j < |aliases| && IsIndexText(aliases[i]) ==> aliases[i] != aliases[j]
  }

  /** A suffix never makes a name integer-like. */
  lemma SuffixedIsName(alias: PhpString, i: nat)
    requires !IsIndexText(alias)
    ensures !IsIndexText(Candidate(alias, i))
  {
    var key := Candidate(alias, i);
    if alias == [] {
      var field: PhpString := "FIELD";
      assert key[0] == field[0] && !IsDigit(key[0]);
    } else if i > 0 {
      CandidateText(alias, i);
      assert key[|alias|] == '_' && !IsDigit('_');
      assert key[0] == '-' ==> key[1..][|alias| - 1] == '_';
    }
  }

  /** Each key: an integer-like alias is taken as it is, any other key is new and not integer-like. */
  lemma KeyIsNew(keys: seq<PhpString>, alias: PhpString)
    requires Insertable(keys, alias)
    ensures if IsIndexText(alias) then KeyFor(keys, alias) == alias
            else !IsIndexText(KeyFor(keys, alias)) && KeyFor(keys, alias) !in keys
  {
    var k := LeastFree(keys, alias, 0);
    if IsIndexText(alias) {
      assert !Found(keys, Candidate(alias, 0));
    } else {
      SuffixedIsName(alias, k);
    }
  }

  lemma {:induction false} KeysFollowAliases(aliases: seq<PhpString>, keys: seq<PhpString>)
    requires Keys(aliases) == Some(keys)
    ensures |keys| == |aliases|
    ensures forall i :: 0 <= i < |keys| ==>
              if IsIndexText(aliases[i]) then keys[i] == aliases[i]
              else !IsIndexText(keys[i]) && keys[i] !in keys[..i]
  {
    hide IsIndexText, KeyFor, Insertable;
    if aliases != [] {
      var n := |aliases| - 1;
      var init := Keys(aliases[..n]).value;
      KeysFollowAliases(aliases[..n], init);
      KeyIsNew(init, aliases[n]);
      assert keys[..n] == init;
      forall i | 0 <= i < n ensures keys[..i] == init[..i] && keys[i] == init[i] {
      }
    }
  }

  /** The keys of a row are pairwise distinct if and only if no integer-like alias is repeated. */
  lemma KeysDistinct(aliases: seq<PhpString>, keys: seq<PhpString>)
    requires Keys(aliases) == Some(keys)
    ensures Distinct(keys) <==> IndexAliasesDistinct(aliases)
  {
    hide IsIndexText, Keys;
    KeysFollowAliases(aliases, keys);
    if IndexAliasesDistinct(aliases) {
      forall i, j | 0 <= i < j < |keys| ensures keys[i] != keys[j] {
        assert keys[..j][i] == keys[i];
      }
    } else {
      var i, j :| 0 <= i < j < |aliases| && IsIndexText(aliases[i]) && aliases[i] == aliases[j];
      assert keys[i] == keys[j];
    }
  }

  /* ----- Reading a row by name ----- */

  function IntegerOf(s: PhpString): int
    requires IsIndexText(s)
  {
    if s[0] == '-' then 0 - Val(s[1..]) else Val(s)
  }

  /** An integer-like name is the text PHP itself gives a 64-bit integer, and stands for that integer. */
  lemma IndexTextExactly(s: PhpString)
    ensures IsIndexText(s) <==> exists n :: INT64_MIN <= n <= INT64_MAX && IsIntegerText(s, n)
    ensures IsIndexText(s) ==> IsIntegerText(s, IntegerOf(s)) && INT64_MIN <= IntegerOf(s) <= INT64_MAX
  {
    hide Val;
    if IsIndexText(s) {
      if s[0] == '-' {
        PositiveValue(s[1..]);
      }
      assert IsIntegerText(s, IntegerOf(s));
    }
    if n :| INT64_MIN <= n <= INT64_MAX && IsIntegerText(s, n) {
      var digits := if n < 0 then s[1..] else s;
      if |digits| == 1 {
        SingleDigit(digits);
        assert n >= 0 && s[0] == '0' ==> s == "0";
      }
    }
  }

  lemma PositiveValue(ds: PhpString)
    requires AllDigits(ds) && ds != [] && ds[0] != '0'
    ensures Val(ds) > 0
  {
    LeadingDigit(ds);
  }

  /** The key PHP looks for when a program writes `$row[$s]`. */
  function Sought(s: PhpString): Key {
    if IsIndexText(s) then Index(IntegerOf(s)) else Name(s)
  }

  /** The value a key finds: the latest of its entries. */
  function Lookup(row: Row, key: Key): Option<PhpValue> {
    if row == [] then None
    else if row[|row| - 1].0 == key then Some(row[|row| - 1].1)
    else Lookup(row[..|row| - 1], key)
  }

  lemma {:induction false} LookupAt(row: Row, j: nat)
    requires j < |row| && forall i :: j < i < |row| ==> row[i].0 != row[j].0
    ensures Lookup(row, row[j].0) == Some(row[j].1)
  {
    if j < |row| - 1 {
      LookupAt(row[..|row| - 1], j);
    }
  }

  lemma {:induction false} LookupMisses(row: Row, key: Key)
    requires forall i :: 0 <= i < |row| ==> row[i].0 != key
    ensures Lookup(row, key) == None
  {
    if row != [] {
      LookupMisses(row[..|row| - 1], key);
    }
  }

  /** What a row by name finds under column j's key: its value, unless the alias is integer-like. */
  lemma LookupByName(buf: seq<byte>, cols: seq<Column>, aliases: seq<PhpString>, blobs: BlobReads, j: nat)
    requires Decodable(buf, cols, blobs)
    requires Keys(aliases).Some? && |aliases| == |cols| && j < |cols|
    requires HashedRow(buf, cols, aliases, blobs).Ok?
    ensures var hashed, keys := HashedRow(buf, cols, aliases, blobs).value, Keys(aliases).value;
            && |keys| == |hashed| == |cols|
            && Lookup(hashed, Sought(keys[j])) == if IsIndexText(aliases[j]) then None else Some(hashed[j].1)
  {
    hide Values, Keys, IsIndexText, IntegerOf, Lookup;
    var keys := Keys(aliases).value;
    KeysLength(aliases);
    KeysFollowAliases(aliases, keys);
    var hashed := HashedRow(buf, cols, aliases, blobs).value;
    if IsIndexText(aliases[j]) {
      LookupMisses(hashed, Sought(keys[j]));
    } else {
      forall i | j < i < |keys| ensures keys[i] != keys[j] {
        assert keys[..i][j] == keys[j];
      }
      LookupAt(hashed, j);
    }
  }

  /**
   Hashed and indexed fetch agree: both rows are complete or both fail alike; complete rows hold the same
   values in column order, under the keys and under the positions. Looking column j's key up by name finds
   its value if and only if alias j is not integer-like, whatever the other aliases are; by position every
   column is found.
   */
  lemma HashedAgreesWithIndexed(buf: seq<byte>, cols: seq<Column>, aliases: seq<PhpString>, blobs: BlobReads, j: nat)
    requires Decodable(buf, cols, blobs)
    requires Keys(aliases).Some? && |aliases| == |cols| && j < |cols|
    ensures var hashed, indexed := HashedRow(buf, cols, aliases, blobs), IndexedRow(buf, cols, blobs);
            var keys := Keys(aliases).value;
            match indexed
            case Err(e) => hashed == Err(e)
            case Ok(row) =>
              && hashed.Ok? && |keys| == |hashed.value| == |row| == |cols|
              && CellValue(buf, cols, blobs, j) == Ok(row[j].1)
              && row[j].0 == Index(j) && Lookup(row, Index(j)) == Some(row[j].1)
              && hashed.value[j] == (Name(keys[j]), row[j].1)
              && (Lookup(hashed.value, Sought(keys[j])) == Some(row[j].1) <==> !IsIndexText(aliases[j]))
  {
    hide CellValue, Values, Keys, IsIndexText, Lookup, Sought;
    KeysLength(aliases);
    ValuesAt(buf, cols, blobs, |cols|);
    if IndexedRow(buf, cols, blobs).Ok? {
      var row := IndexedRow(buf, cols, blobs).value;
      LookupAt(row, j);
      LookupByName(buf, cols, aliases, blobs, j);
    }
  }
}
