/** The typosquat generator, the filter over hand-written typo lists, and whether the scanner reports
    what they produce. */
module TyposquatFixtures {
  import opened EditDistance
  import opened Keyboard
  import opened Sorting
  import opened TrieSearch
  import opened CorpusIndex
  import opened TyposquatRule

  const LETTERS: string := "abcdefghijklmnopqrstuvwxyz"
  const ALPHABET: string := "abcdefghijklmnopqrstuvwxyz0123456789"
  const MAX_VARIANTS := 20

  // ---------------------------------------------------------------- kinds of variant

  function SubstitutionsAt(name: string, i: nat, upTo: nat): set<string>
    requires i < |name| && upTo <= |ALPHABET|
  {
    set k | 0 <= k < upTo && ALPHABET[k] != name[i] :: Apply(Substitute(i, ALPHABET[k]), name)
  }

  function InsertionsAt(name: string, i: nat, upTo: nat): set<string>
    requires i <= |name| && upTo <= |ALPHABET|
  {
    set k | 0 <= k < upTo :: Apply(Insert(i, ALPHABET[k]), name)
  }

  function Deletion(name: string, i: nat): string
    requires i < |name|
  {
    Apply(Delete(i), name)
  }

  /** Both characters change; the second ranges over the first `upTo` letters. */
  function PairsAt(name: string, i: nat, j: nat, c: char, upTo: nat): set<string>
    requires i < j < |name| && upTo <= |LETTERS|
  {
    set k | 0 <= k < upTo && c != name[i] && LETTERS[k] != name[j] :: name[i := c][j := LETTERS[k]]
  }

  function Transposition(name: string, i: nat): string
    requires i + 1 < |name|
  {
    name[i := name[i + 1]][i + 1 := name[i]]
  }

  ghost predicate IsSubstitution(name: string, v: string) {
    exists i :: 0 <= i < |name| && v in SubstitutionsAt(name, i, |ALPHABET|)
  }

  ghost predicate IsDeletion(name: string, v: string) {
    exists i :: 0 <= i < |name| && v == Deletion(name, i)
  }

  ghost predicate IsInsertion(name: string, v: string) {
    exists i :: 0 <= i <= |name| && v in InsertionsAt(name, i, |ALPHABET|)
  }

  ghost predicate IsPair(name: string, v: string) {
    exists i, j, k :: 0 <= i < j < |name| && 0 <= k < |LETTERS| && v in PairsAt(name, i, j, LETTERS[k], |LETTERS|)
  }

  ghost predicate IsTransposition(name: string, v: string) {
    exists i :: 0 <= i < |name| - 1 && v == Transposition(name, i)
  }

  ghost predicate IsVariant(name: string, v: string) {
    IsSubstitution(name, v) || IsDeletion(name, v) || IsInsertion(name, v) || IsPair(name, v) || IsTransposition(name, v)
  }

  // ---------------------------------------------------------------- distance of variants

  lemma {:induction false} OneEdit(name: string, e: Edit, v: string)
    requires Applicable(e, name) && v == Apply(e, name)
    ensures Lev(v, name) <= 1
  {
    hide Lev;
    EditMovesByOne(e, name);
    LevSymmetric(v, name);
  }

  lemma {:induction false} TwoSubstitutions(name: string, i: nat, c: char, j: nat, d: char)
    requires i < |name| && j < |name|
    ensures Lev(name[i := c][j := d], name) <= 2
  {
    hide Lev;
    var u := name[i := c];
    assert u == Apply(Substitute(i, c), name);
    assert u[j := d] == Apply(Substitute(j, d), u);
    OneEdit(name, Substitute(i, c), u);
    OneEdit(u, Substitute(j, d), u[j := d]);
    LevTriangle(u[j := d], u, name);
  }

  /** Whatever the generator emits is one or two edits away from the name. */
  lemma {:induction false} VariantWithinTwo(name: string, v: string)
    requires IsVariant(name, v) && v != name
    ensures 1 <= Lev(v, name) <= 2
  {
    hide Lev, Apply;
    LevZeroIffEqual(v, name);
    if IsSubstitution(name, v) {
      var i :| 0 <= i < |name| && v in SubstitutionsAt(name, i, |ALPHABET|);
      var k :| 0 <= k < |ALPHABET| && v == Apply(Substitute(i, ALPHABET[k]), name);
      OneEdit(name, Substitute(i, ALPHABET[k]), v);
    } else if IsDeletion(name, v) {
      var i :| 0 <= i < |name| && v == Deletion(name, i);
      OneEdit(name, Delete(i), v);
    } else if IsInsertion(name, v) {
      var i :| 0 <= i <= |name| && v in InsertionsAt(name, i, |ALPHABET|);
      var k :| 0 <= k < |ALPHABET| && v == Apply(Insert(i, ALPHABET[k]), name);
      OneEdit(name, Insert(i, ALPHABET[k]), v);
    } else if IsPair(name, v) {
      var i, j, k :| 0 <= i < j < |name| && 0 <= k < |LETTERS| && v in PairsAt(name, i, j, LETTERS[k], |LETTERS|);
      var l :| 0 <= l < |LETTERS| && v == name[i := LETTERS[k]][j := LETTERS[l]];
      TwoSubstitutions(name, i, LETTERS[k], j, LETTERS[l]);
    } else {
      var i :| 0 <= i < |name| - 1 && v == Transposition(name, i);
      TwoSubstitutions(name, i, name[i + 1], i + 1, name[i]);
    }
  }

  function Times(s: string, c: char): nat {
    multiset(s)[c]
  }

  /** Every character that `v` has more often than `name` is one the generator inserts. */
  ghost predicate AddsFromAlphabet(name: string, v: string) {
    forall c :: Times(v, c) > Times(name, c) ==> LowerOrDigit(c)
  }

  /** A name at distance one is generated if and only if it adds no character but lower-case letters and digits. */
  lemma {:induction false} NeighbourIsVariantIff(name: string, v: string)
    requires Lev(name, v) == 1
    ensures IsVariant(name, v) <==> AddsFromAlphabet(name, v)
  {
    hide Lev, IsVariant, AddsFromAlphabet;
    if IsVariant(name, v) {
      VariantAddsFromAlphabet(name, v);
    }
    if AddsFromAlphabet(name, v) {
      NeighbourIsVariant(name, v);
    }
  }

  /** What one edit does to the number of occurrences. */
  lemma {:induction false} EditTimes(e: Edit, s: string, x: char)
    requires Applicable(e, s)
    ensures Times(Apply(e, s), x) + (if !e.Insert? && x == s[e.at] then 1 else 0)
         == Times(s, x) + if !e.Delete? && x == e.c then 1 else 0
  {
    if e.Insert? {
      assert s == s[..e.at] + s[e.at..];
    } else {
      assert s == s[..e.at] + [s[e.at]] + s[e.at + 1..];
    }
  }

  /** One edit adds at most the character it names, and adds that one unless it replaces it. */
  lemma {:induction false} EditAdds(e: Edit, s: string)
    requires Applicable(e, s)
    ensures forall x :: Times(Apply(e, s), x) > Times(s, x) <==>
              (e.Insert? && x == e.c) || (e.Substitute? && x == e.c && s[e.at] != e.c)
  {
    hide Times, Apply;
    forall x
      ensures Times(Apply(e, s), x) > Times(s, x) <==>
                (e.Insert? && x == e.c) || (e.Substitute? && x == e.c && s[e.at] != e.c)
    {
      EditTimes(e, s, x);
    }
  }

  lemma {:induction false} PairAdds(s: string, i: nat, c: char, j: nat, d: char)
    requires i < |s| && j < |s|
    ensures forall x :: Times(s[i := c][j := d], x) > Times(s, x) ==> x == c || x == d
  {
    var u := s[i := c];
    assert u == Apply(Substitute(i, c), s) && u[j := d] == Apply(Substitute(j, d), u);
    hide Times, Apply;
    EditAdds(Substitute(i, c), s);
    EditAdds(Substitute(j, d), u);
  }

  lemma {:induction false} TranspositionAddsNothing(name: string, i: nat)
    requires i + 1 < |name|
    ensures forall x :: Times(Transposition(name, i), x) == Times(name, x)
  {
    assert name == name[..i] + [name[i], name[i + 1]] + name[i + 2..];
    assert Transposition(name, i) == name[..i] + [name[i + 1], name[i]] + name[i + 2..];
  }

  lemma {:induction false} VariantAddsFromAlphabet(name: string, v: string)
    requires IsVariant(name, v)
    ensures AddsFromAlphabet(name, v)
  {
    hide Times, Apply, Transposition, LowerOrDigit;
    if IsSubstitution(name, v) {
      var i :| 0 <= i < |name| && v in SubstitutionsAt(name, i, |ALPHABET|);
      var k :| 0 <= k < |ALPHABET| && v == Apply(Substitute(i, ALPHABET[k]), name);
      EditAdds(Substitute(i, ALPHABET[k]), name);
      AlphabetIs(ALPHABET[k]);
    } else if IsDeletion(name, v) {
      var i :| 0 <= i < |name| && v == Deletion(name, i);
      EditAdds(Delete(i), name);
    } else if IsInsertion(name, v) {
      var i :| 0 <= i <= |name| && v in InsertionsAt(name, i, |ALPHABET|);
      var k :| 0 <= k < |ALPHABET| && v == Apply(Insert(i, ALPHABET[k]), name);
      EditAdds(Insert(i, ALPHABET[k]), name);
      AlphabetIs(ALPHABET[k]);
    } else if IsPair(name, v) {
      var i, j, k :| 0 <= i < j < |name| && 0 <= k < |LETTERS| && v in PairsAt(name, i, j, LETTERS[k], |LETTERS|);
      var l :| 0 <= l < |LETTERS| && v == name[i := LETTERS[k]][j := LETTERS[l]];
      PairAdds(name, i, LETTERS[k], j, LETTERS[l]);
      LetterIsInAlphabet(k);
      LetterIsInAlphabet(l);
      AlphabetIs(LETTERS[k]);
      AlphabetIs(LETTERS[l]);
    } else {
      var i :| 0 <= i < |name| - 1 && v == Transposition(name, i);
      TranspositionAddsNothing(name, i);
    }
  }

  lemma {:induction false} LetterIsInAlphabet(k: nat)
    requires k < |LETTERS|
    ensures LETTERS[k] in ALPHABET
  {
    assert ALPHABET[k] == LETTERS[k];
  }

  lemma {:induction false} NeighbourIsVariant(name: string, v: string)
    requires Lev(name, v) == 1 && AddsFromAlphabet(name, v)
    ensures IsVariant(name, v)
  {
    hide Lev, Apply, Times;
    LevZeroIffEqual(name, v);
    var script := SomeScript(name, v);
    var e := script[0];
    assert script[1..] == [];
    assert v == Apply(e, name);
    EditAdds(e, name);
    match e {
      case Delete(i) =>
        assert v == Deletion(name, i);
      case Insert(i, c) =>
        assert Times(Apply(e, name), c) > Times(name, c);
        AlphabetIs(c);
        InsertedIsVariant(name, i, c);
      case Substitute(i, c) =>
        UselessSubstitution(name, i);
        assert Times(Apply(e, name), c) > Times(name, c);
        AlphabetIs(c);
        SubstitutedIsVariant(name, i, c);
    }
  }

  lemma {:induction false} InsertedIsVariant(name: string, i: nat, c: char)
    requires i <= |name| && c in ALPHABET
    ensures IsVariant(name, Apply(Insert(i, c), name))
  {
    hide Apply, IsSubstitution, IsDeletion, IsPair, IsTransposition;
    var k :| 0 <= k < |ALPHABET| && ALPHABET[k] == c;
    assert Apply(Insert(i, c), name) in InsertionsAt(name, i, |ALPHABET|);
  }

  lemma {:induction false} SubstitutedIsVariant(name: string, i: nat, c: char)
    requires i < |name| && c in ALPHABET && c != name[i]
    ensures IsVariant(name, Apply(Substitute(i, c), name))
  {
    hide Apply, IsInsertion, IsDeletion, IsPair, IsTransposition;
    var k :| 0 <= k < |ALPHABET| && ALPHABET[k] == c;
    assert Apply(Substitute(i, c), name) in SubstitutionsAt(name, i, |ALPHABET|);
  }

  lemma {:induction false} UselessSubstitution(s: string, i: nat)
    requires i < |s|
    ensures Apply(Substitute(i, s[i]), s) == s
  {
  }

  lemma {:induction false} ForeignSubstitution(name: string, i: nat, c: char)
    requires i < |name| && name[i] != c && c !in ALPHABET
    ensures Lev(name, Apply(Substitute(i, c), name)) == 1 && !IsVariant(name, Apply(Substitute(i, c), name))
  {
    var v := Apply(Substitute(i, c), name);
    assert v[i] == c;
    hide Lev, IsVariant, Apply;
    EditMovesByOne(Substitute(i, c), name);
    LevZeroIffEqual(name, v);
    EditAdds(Substitute(i, c), name);
    AlphabetIs(c);
    NeighbourIsVariantIff(name, v);
  }

  lemma {:induction false} CapitalIsForeign()
    ensures 'R' !in ALPHABET
  {
  }

  lemma {:induction false} ReactPasses(alnum: char -> bool)
    requires alnum('R') && alnum('e') && alnum('a') && alnum('c') && alnum('t')
    ensures Passes(alnum, "react", "React")
  {
  }

  lemma {:induction false} ReactByOneEdit()
    ensures Apply(Substitute(0, 'R'), "react") == "React"
  {
  }

  /** "React" is at distance one from "react" and passes the final filter, but is not generated. */
  lemma {:induction false} CapitalIsNotGenerated(alnum: char -> bool)
    requires alnum('R') && alnum('e') && alnum('a') && alnum('c') && alnum('t')
    ensures Lev("react", "React") == 1 && Passes(alnum, "react", "React") && !IsVariant("react", "React")
  {
    hide Lev, IsVariant, Apply, Passes;
    ReactByOneEdit();
    ReactPasses(alnum);
    CapitalIsForeign();
    ForeignSubstitution("react", 0, 'R');
  }

  // ---------------------------------------------------------------- the kinds, spelled out

  predicate LowerOrDigit(c: char) {
    'a' <= c <= 'z' || '0' <= c <= '9'
  }

  lemma {:induction false} AlphabetIs(c: char)
    ensures c in ALPHABET <==> LowerOrDigit(c)
  {
    if '0' <= c <= '9' {
      DigitAt(c);
    }
    if 'a' <= c <= 'z' {
      LetterAt(c);
    }
  }

  lemma {:induction false} LettersAre(c: char)
    ensures c in LETTERS <==> 'a' <= c <= 'z'
  {
    if 'a' <= c <= 'z' {
      LetterAt(c);
    }
  }

  lemma {:induction false} DigitAt(c: char)
    requires '0' <= c <= '9'
    ensures ALPHABET[26 + (c as int - '0' as int)] == c
  {
  }

  lemma {:induction false} LetterAt(c: char)
    requires 'a' <= c <= 'z'
    ensures ALPHABET[c as int - 'a' as int] == c == LETTERS[c as int - 'a' as int]
  {
  }

  function BothChanged(name: string, i: nat, c: char, j: nat, d: char): string
    requires i < |name| && j < |name|
  {
    name[i := c][j := d]
  }

  /** Some character of the name replaced, dropped or put in; two replaced by letters; or two neighbours exchanged. */
  ghost predicate Mistyped(name: string, v: string) {
    || (exists i, c :: 0 <= i < |name| && c != name[i] && LowerOrDigit(c) && v == name[..i] + [c] + name[i + 1..])
    || (exists i :: 0 <= i < |name| && v == name[..i] + name[i + 1..])
    || (exists i, c :: 0 <= i <= |name| && LowerOrDigit(c) && v == name[..i] + [c] + name[i..])
    || (exists i, j, c, d :: 0 <= i < j < |name| && 'a' <= c <= 'z' && 'a' <= d <= 'z' && c != name[i] && d != name[j]
                             && v == BothChanged(name, i, c, j, d))
    || (exists i :: 0 <= i < |name| - 1 && v == name[..i] + [name[i + 1], name[i]] + name[i + 2..])
  }

  lemma {:induction false} IsVariantIff(name: string, v: string)
    ensures IsVariant(name, v) <==> Mistyped(name, v)
  {
    hide IsSubstitution, IsDeletion, IsInsertion, IsPair, IsTransposition, LowerOrDigit;
    SubstitutionIff(name, v);
    DeletionIff(name, v);
    InsertionIff(name, v);
    PairIff(name, v);
    TranspositionIff(name, v);
  }

  lemma {:induction false} SubstitutionIff(name: string, v: string)
    ensures IsSubstitution(name, v) <==>
              exists i, c :: 0 <= i < |name| && c != name[i] && LowerOrDigit(c) && v == name[..i] + [c] + name[i + 1..]
  {
    hide LowerOrDigit;
    if IsSubstitution(name, v) {
      var i :| 0 <= i < |name| && v in SubstitutionsAt(name, i, |ALPHABET|);
      var k :| 0 <= k < |ALPHABET| && ALPHABET[k] != name[i] && v == Apply(Substitute(i, ALPHABET[k]), name);
      AlphabetIs(ALPHABET[k]);
      assert v == name[..i] + [ALPHABET[k]] + name[i + 1..];
    }
    if i, c :| 0 <= i < |name| && c != name[i] && LowerOrDigit(c) && v == name[..i] + [c] + name[i + 1..] {
      AlphabetIs(c);
      var k :| 0 <= k < |ALPHABET| && ALPHABET[k] == c;
      assert v == Apply(Substitute(i, ALPHABET[k]), name);
      assert v in SubstitutionsAt(name, i, |ALPHABET|);
    }
  }

  lemma {:induction false} DeletionIff(name: string, v: string)
    ensures IsDeletion(name, v) <==> exists i :: 0 <= i < |name| && v == name[..i] + name[i + 1..]
  {
    if i :| 0 <= i < |name| && v == name[..i] + name[i + 1..] {
      assert v == Deletion(name, i);
    }
  }

  lemma {:induction false} InsertionIff(name: string, v: string)
    ensures IsInsertion(name, v) <==>
              exists i, c :: 0 <= i <= |name| && LowerOrDigit(c) && v == name[..i] + [c] + name[i..]
  {
    hide LowerOrDigit;
    if IsInsertion(name, v) {
      var i :| 0 <= i <= |name| && v in InsertionsAt(name, i, |ALPHABET|);
      var k :| 0 <= k < |ALPHABET| && v == Apply(Insert(i, ALPHABET[k]), name);
      AlphabetIs(ALPHABET[k]);
      assert v == name[..i] + [ALPHABET[k]] + name[i..];
    }
    if i, c :| 0 <= i <= |name| && LowerOrDigit(c) && v == name[..i] + [c] + name[i..] {
      AlphabetIs(c);
      var k :| 0 <= k < |ALPHABET| && ALPHABET[k] == c;
      assert v == Apply(Insert(i, ALPHABET[k]), name);
      assert v in InsertionsAt(name, i, |ALPHABET|);
    }
  }

  lemma {:induction false} PairIff(name: string, v: string)
    ensures IsPair(name, v) <==>
              exists i, j, c, d :: 0 <= i < j < |name| && 'a' <= c <= 'z' && 'a' <= d <= 'z' && c != name[i] && d != name[j]
                                   && v == BothChanged(name, i, c, j, d)
  {
    if IsPair(name, v) {
      var i, j, k :| 0 <= i < j < |name| && 0 <= k < |LETTERS| && v in PairsAt(name, i, j, LETTERS[k], |LETTERS|);
      var l :| 0 <= l < |LETTERS| && LETTERS[k] != name[i] && LETTERS[l] != name[j] && v == name[i := LETTERS[k]][j := LETTERS[l]];
      LettersAre(LETTERS[k]);
      LettersAre(LETTERS[l]);
      assert v == BothChanged(name, i, LETTERS[k], j, LETTERS[l]);
    }
    if i, j, c, d :| 0 <= i < j < |name| && 'a' <= c <= 'z' && 'a' <= d <= 'z' && c != name[i] && d != name[j]
                     && v == BothChanged(name, i, c, j, d) {
      LettersAre(c);
      LettersAre(d);
      var k :| 0 <= k < |LETTERS| && LETTERS[k] == c;
      var l :| 0 <= l < |LETTERS| && LETTERS[l] == d;
      assert v in PairsAt(name, i, j, LETTERS[k], |LETTERS|);
    }
  }

  lemma {:induction false} TranspositionIff(name: string, v: string)
    ensures IsTransposition(name, v) <==>
              exists i :: 0 <= i < |name| - 1 && v == name[..i] + [name[i + 1], name[i]] + name[i + 2..]
  {
    forall i | 0 <= i < |name| - 1
      ensures Transposition(name, i) == name[..i] + [name[i + 1], name[i]] + name[i + 2..]
    {
    }
  }

  // ---------------------------------------------------------------- the generator

  method AddSubstitutions(name: string, variants: set<string>) returns (r: set<string>)
    ensures forall v :: v in r <==> v in variants || IsSubstitution(name, v)
  {
    hide SubstitutionsAt;
    r := variants;
    for i := 0 to |name|
      invariant forall v :: v in r <==> v in variants || exists k :: 0 <= k < i && v in SubstitutionsAt(name, k, |ALPHABET|)
    {
      r := AddSubstitutionsAt(name, i, r);
    }
  }

  method AddSubstitutionsAt(name: string, i: nat, variants: set<string>) returns (r: set<string>)
    requires i < |name|
    ensures r == variants + SubstitutionsAt(name, i, |ALPHABET|)
  {
    hide Apply;
    r := variants;
    for k := 0 to |ALPHABET|
      invariant r == variants + SubstitutionsAt(name, i, k)
    {
      NextSubstitution(name, i, k);
      if ALPHABET[k] != name[i] {
        r := r + {Apply(Substitute(i, ALPHABET[k]), name)};
      }
    }
  }

  lemma {:induction false} NextSubstitution(name: string, i: nat, k: nat)
    requires i < |name| && k < |ALPHABET|
    ensures SubstitutionsAt(name, i, k + 1)
         == SubstitutionsAt(name, i, k) + if ALPHABET[k] != name[i] then {Apply(Substitute(i, ALPHABET[k]), name)} else {}
  {
    hide Apply;
  }

  method AddDeletions(name: string, variants: set<string>) returns (r: set<string>)
    ensures forall v :: v in r <==> v in variants || IsDeletion(name, v)
  {
    hide Apply;
    r := variants;
    for i := 0 to |name|
      invariant forall v :: v in r <==> v in variants || exists k :: 0 <= k < i && v == Deletion(name, k)
    {
      r := r + {Deletion(name, i)};
    }
  }

  method AddInsertions(name: string, variants: set<string>) returns (r: set<string>)
    ensures forall v :: v in r <==> v in variants || IsInsertion(name, v)
  {
    hide InsertionsAt;
    r := variants;
    for i := 0 to |name| + 1
      invariant forall v :: v in r <==> v in variants || exists k :: 0 <= k < i && v in InsertionsAt(name, k, |ALPHABET|)
    {
      r := AddInsertionsAt(name, i, r);
    }
  }

  method AddInsertionsAt(name: string, i: nat, variants: set<string>) returns (r: set<string>)
    requires i <= |name|
    ensures r == variants + InsertionsAt(name, i, |ALPHABET|)
  {
    hide Apply;
    r := variants;
    for k := 0 to |ALPHABET|
      invariant r == variants + InsertionsAt(name, i, k)
    {
      r := r + {Apply(Insert(i, ALPHABET[k]), name)};
      assert r == variants + InsertionsAt(name, i, k + 1);
    }
  }

  /** Pairs whose positions come before `(i, j)` in loop order. */
  ghost predicate IsPairBefore(name: string, v: string, i: nat, j: nat) {
    exists a, b, k :: 0 <= a < b < |name| && (a < i || (a == i && b < j)) && 0 <= k < |LETTERS|
                   && v in PairsAt(name, a, b, LETTERS[k], |LETTERS|)
  }

  method AddPairsWith(name: string, i: nat, j: nat, c: char, variants: set<string>) returns (r: set<string>)
    requires i < j < |name|
    ensures r == variants + PairsAt(name, i, j, c, |LETTERS|)
  {
    r := variants;
    for l := 0 to |LETTERS|
      invariant r == variants + PairsAt(name, i, j, c, l)
    {
      if c != name[i] && LETTERS[l] != name[j] {
        var w := name;
        w := w[i := c];
        w := w[j := LETTERS[l]];
        r := r + {w};
      }
      assert r == variants + PairsAt(name, i, j, c, l + 1);
    }
  }

  method AddPairsAt(name: string, i: nat, j: nat, variants: set<string>) returns (r: set<string>)
    requires i < j < |name|
    ensures forall v :: v in r <==>
              v in variants || exists k :: 0 <= k < |LETTERS| && v in PairsAt(name, i, j, LETTERS[k], |LETTERS|)
  {
    hide PairsAt;
    r := variants;
    for k := 0 to |LETTERS|
      invariant forall v :: v in r <==>
                  v in variants || exists l :: 0 <= l < k && v in PairsAt(name, i, j, LETTERS[l], |LETTERS|)
    {
      r := AddPairsWith(name, i, j, LETTERS[k], r);
    }
  }

  method AddPairs(name: string, variants: set<string>) returns (r: set<string>)
    ensures forall v :: v in r <==> v in variants || IsPair(name, v)
  {
    hide PairsAt;
    r := variants;
    for i := 0 to |name|
      invariant forall v :: v in r <==> v in variants || IsPairBefore(name, v, i, i + 1)
    {
      for j := i + 1 to |name|
        invariant forall v :: v in r <==> v in variants || IsPairBefore(name, v, i, j)
      {
        ghost var before := r;
        r := AddPairsAt(name, i, j, r);
        forall v ensures v in r <==> v in variants || IsPairBefore(name, v, i, j + 1) {
        }
      }
      forall v ensures IsPairBefore(name, v, i, |name|) <==> IsPairBefore(name, v, i + 1, i + 2) {
      }
    }
    forall v ensures IsPairBefore(name, v, |name|, |name| + 1) <==> IsPair(name, v) {
    }
  }

  method AddTranspositions(name: string, variants: set<string>) returns (r: set<string>)
    ensures forall v :: v in r <==> v in variants || IsTransposition(name, v)
  {
    r := variants;
    if |name| > 0 {
      for i := 0 to |name| - 1
        invariant forall v :: v in r <==> v in variants || exists k :: 0 <= k < i && v == Transposition(name, k)
      {
        var lst := name;
        lst := lst[i := name[i + 1]][i + 1 := name[i]];
        assert lst == Transposition(name, i);
        r := r + {lst};
      }
    }
  }

  /** `isalnum` of a string, over whatever characters count as alphanumeric. */
  predicate IsAlnum(alnum: char -> bool, v: string) {
    v != "" && forall i :: 0 <= i < |v| ==> alnum(v[i])
  }

  predicate Passes(alnum: char -> bool, name: string, v: string) {
    v != name && |v| >= 3 && IsAlnum(alnum, v)
  }

  /** The first twenty, in order, of all variants that pass the final filter. */
  ghost predicate FirstTwenty(name: string, alnum: char -> bool, r: seq<string>) {
    && (forall v :: v in r ==> IsVariant(name, v) && IsTypo(alnum, name, v))
    && SortedBy(r, StringLe) && Distinct(r) && |r| <= 20
    && (forall v :: IsVariant(name, v) && IsTypo(alnum, name, v) && v !in r ==>
          |r| == 20 && forall u :: u in r ==> StringLe(u, v))
  }

  /** Another name, of three or more characters, all alphanumeric. */
  ghost predicate IsTypo(alnum: char -> bool, name: string, v: string) {
    v != name && |v| >= 3 && forall c :: c in v ==> alnum(c)
  }

  lemma {:induction false} PassesIff(alnum: char -> bool, name: string, v: string)
    ensures Passes(alnum, name, v) <==> IsTypo(alnum, name, v)
  {
    if Passes(alnum, name, v) {
      forall c | c in v ensures alnum(c) { var i :| 0 <= i < |v| && v[i] == c; }
    }
    if IsTypo(alnum, name, v) {
      forall i | 0 <= i < |v| ensures alnum(v[i]) { assert v[i] in v; }
    }
  }

  /** Returns them; each is at distance one or two. */
  method TyposquatVariants(name: string, alnum: char -> bool) returns (r: seq<string>)
    ensures FirstTwenty(name, alnum, r)
    ensures forall v :: v in r ==> 1 <= Lev(v, name) <= 2
  {
    hide Lev, StringLe, IsSubstitution, IsDeletion, IsInsertion, IsPair, IsTransposition;
    var variants := AddSubstitutions(name, {});
    variants := AddDeletions(name, variants);
    variants := AddInsertions(name, variants);
    variants := AddPairs(name, variants);
    variants := AddTranspositions(name, variants);
    variants := set v | v in variants && Passes(alnum, name, v);
    var sorted := SortStrings(variants);
    r := if |sorted| > MAX_VARIANTS then sorted[..MAX_VARIANTS] else sorted;
    forall v | v in r
      ensures v in variants && 1 <= Lev(v, name) <= 2
    {
      assert v in sorted;
      VariantWithinTwo(name, v);
    }
    forall v | IsVariant(name, v) && Passes(alnum, name, v) && v !in r
      ensures |r| == MAX_VARIANTS && forall u :: u in r ==> StringLe(u, v)
    {
      assert v in sorted;
      var i :| 0 <= i < |sorted| && sorted[i] == v;
      assert i >= MAX_VARIANTS;
    }
  }

  // ---------------------------------------------------------------- what the cut leaves

  predicate Digit(c: char) {
    '0' <= c <= '9'
  }

  /** A digit in front of the name, or in place of its first character. */
  predicate DigitVariant(name: string, v: string)
    requires name != ""
  {
    v != "" && Digit(v[0]) && (v[1..] == name[1..] || v[1..] == name)
  }

  lemma {:induction false} LetterIsNoDigit(k: nat)
    requires k < |LETTERS|
    ensures !Digit(LETTERS[k])
  {
  }

  lemma {:induction false} DigitIsInAlphabet(c: char)
    requires Digit(c)
    ensures c in ALPHABET
  {
    var a := ALPHABET;
    assert a[26] == '0' && a[27] == '1' && a[28] == '2' && a[29] == '3' && a[30] == '4';
    assert a[31] == '5' && a[32] == '6' && a[33] == '7' && a[34] == '8' && a[35] == '9';
  }

  /** Nothing else starts with a digit, if the name has none among its first two characters. */
  lemma {:induction false} LedByDigit(name: string, v: string)
    requires |name| >= 2 && !Digit(name[0]) && !Digit(name[1])
    requires IsVariant(name, v) && v != "" && Digit(v[0])
    ensures DigitVariant(name, v)
  {
    if IsSubstitution(name, v) {
      var i :| 0 <= i < |name| && v in SubstitutionsAt(name, i, |ALPHABET|);
    } else if IsInsertion(name, v) {
      var i :| 0 <= i <= |name| && v in InsertionsAt(name, i, |ALPHABET|);
    } else if IsPair(name, v) {
      var i, j, k :| 0 <= i < j < |name| && 0 <= k < |LETTERS| && v in PairsAt(name, i, j, LETTERS[k], |LETTERS|);
      LetterIsNoDigit(k);
    }
  }

  lemma {:induction false} DigitVariantIsVariant(name: string, v: string)
    requires name != "" && !Digit(name[0]) && DigitVariant(name, v)
    ensures IsVariant(name, v)
  {
    var c := v[0];
    assert v == [c] + v[1..];
    assert Apply(Insert(0, c), name) == [c] + name && Apply(Substitute(0, c), name) == [c] + name[1..];
    hide IsVariant, Apply;
    DigitIsInAlphabet(c);
    InsertedIsVariant(name, 0, c);
    SubstitutedIsVariant(name, 0, c);
  }

  /** The twenty of them. */
  function DigitVariants(name: string): seq<string>
    requires name != ""
  {
    seq(20, k requires 0 <= k < 20 => [('0' as int + k % 10) as char] + if k < 10 then name[1..] else name)
  }

  lemma {:induction false} DigitVariantsAreTwenty(name: string)
    requires name != ""
    ensures Distinct(DigitVariants(name)) && forall v :: v in DigitVariants(name) <==> DigitVariant(name, v)
  {
    var s := DigitVariants(name);
    forall k, l | 0 <= k < l < 20
      ensures s[k] != s[l]
    {
      if k < 10 <= l {
        assert |s[k]| != |s[l]|;
      } else {
        assert s[k][0] != s[l][0];
      }
    }
    hide DigitVariants, DigitVariant;
    forall v
      ensures v in s <==> DigitVariant(name, v)
    {
      AmongTheTwenty(name, v);
    }
  }

  lemma {:induction false} AmongTheTwenty(name: string, v: string)
    requires name != ""
    ensures v in DigitVariants(name) <==> DigitVariant(name, v)
  {
    var s := DigitVariants(name);
    if DigitVariant(name, v) {
      var d := v[0] as int - '0' as int;
      assert v == [v[0]] + v[1..];
      assert v == if v[1..] == name[1..] then s[d] else s[10 + d];
    }
    if v in s {
      var k :| 0 <= k < 20 && s[k] == v;
      assert v[1..] == if k < 10 then name[1..] else name;
    }
  }

  /** What Python's `isalnum` says of digits, and of everything below them. */
  ghost predicate AlnumFromZero(alnum: char -> bool) {
    (forall c :: Digit(c) ==> alnum(c)) && (forall c :: alnum(c) ==> '0' <= c)
  }

  /** What the generator returns for an alphanumeric name that does not start with digits: exactly the twenty names with
      a digit in front or in place of the first character. No other kind of variant survives the cut. */
  lemma {:induction false} OnlyDigitsSurvive(name: string, alnum: char -> bool, r: seq<string>)
    requires FirstTwenty(name, alnum, r) && AlnumFromZero(alnum)
    requires |name| >= 3 && IsAlnum(alnum, name) && !Digit(name[0]) && !Digit(name[1])
    ensures |r| == MAX_VARIANTS && forall v :: v in r <==> DigitVariant(name, v)
  {
    hide IsVariant, StringLe, DigitVariants;
    var s := DigitVariants(name);
    DigitVariantsAreTwenty(name);
    DistinctCardinality(s);
    DistinctCardinality(r);
    assert |s| == 20 by { TwentyLong(name); }
    forall v | v in s
      ensures v in r
    {
      DigitVariantPasses(name, alnum, v);
      if v !in r {
        forall u | u in r
          ensures u in Members(s) - {v}
        {
          LedByDigitIfBelow(name, alnum, u, v);
        }
        assert Members(r) <= Members(s) - {v};
        SubsetSize(Members(r), Members(s) - {v});
      }
    }
    assert Members(s) <= Members(r);
    SubsetSize(Members(s), Members(r));
    assert forall v :: v in r <==> v in Members(r);
  }

  lemma {:induction false} TwentyLong(name: string)
    requires name != ""
    ensures |DigitVariants(name)| == 20
  {
  }

  lemma {:induction false} SubsetSize(s: set<string>, t: set<string>)
    requires s <= t
    ensures |s| <= |t| && (|s| == |t| ==> s == t)
  {
    assert t == s + (t - s);
  }

  lemma {:induction false} DigitVariantPasses(name: string, alnum: char -> bool, v: string)
    requires AlnumFromZero(alnum) && |name| >= 3 && IsAlnum(alnum, name) && !Digit(name[0]) && DigitVariant(name, v)
    ensures IsVariant(name, v) && Passes(alnum, name, v)
  {
    hide IsVariant;
    DigitVariantIsVariant(name, v);
    assert v == [v[0]] + v[1..];
  }

  /** A variant in front of one that starts with a digit starts with a digit itself. */
  lemma {:induction false} LedByDigitIfBelow(name: string, alnum: char -> bool, u: string, v: string)
    requires AlnumFromZero(alnum) && |name| >= 2 && !Digit(name[0]) && !Digit(name[1])
    requires IsVariant(name, u) && Passes(alnum, name, u) && v != "" && Digit(v[0]) && StringLe(u, v)
    ensures DigitVariant(name, u)
  {
    hide IsVariant;
    assert alnum(u[0]);
    LedByDigit(name, u);
  }

  /** "preact" is a variant of "react" that the cut removes. */
  lemma {:induction false} PreactIsCut(alnum: char -> bool, r: seq<string>)
    requires FirstTwenty("react", alnum, r) && AlnumFromZero(alnum) && IsAlnum(alnum, "react")
    ensures "preact" !in r
  {
    hide FirstTwenty, IsAlnum;
    OnlyDigitsSurvive("react", alnum, r);
  }

  // ---------------------------------------------------------------- the filter

  predicate Detectable(typo: string, genuine: string) {
    var d := Lev(typo, genuine);
    typo != genuine && 1 <= d <= 2 && |typo| >= 3 && !(|typo| < 4 && d > 1)
  }

  /** `out` holds the detectable pairs of `pairs`, each taken at its first occurrence `at[k]`. */
  ghost predicate Filtered(pairs: seq<(string, string)>, out: seq<(string, string)>, at: seq<nat>) {
    && (forall p :: p in out <==> p in pairs && Detectable(p.0, p.1))
    && |at| == |out|
    && (forall k :: 0 <= k < |out| ==> at[k] < |pairs| && pairs[at[k]] == out[k] && out[k] !in pairs[..at[k]])
    && (forall k, l :: 0 <= k < l < |at| ==> at[k] < at[l])
  }

  /** Keeps the first occurrence of every detectable pair, in order. */
  method DetectableTypos(pairs: seq<(string, string)>) returns (out: seq<(string, string)>)
    ensures forall p :: p in out <==> p in pairs && Detectable(p.0, p.1)
    ensures exists at :: Filtered(pairs, out, at)
  {
    hide Lev, IsEditDistance;
    var seen: set<(string, string)> := {};
    out := [];
    ghost var at: seq<nat> := [];
    assert Filtered(pairs[..0], out, at);
    for i := 0 to |pairs|
      invariant forall p :: p in seen <==> p in out
      invariant Filtered(pairs[..i], out, at)
    {
      var (typo, genuine) := pairs[i];
      if typo == genuine || (typo, genuine) in seen {
        continue;
      }
      var d := Distance(typo, genuine);
      if d < 1 || d > 2 {
        continue;
      }
      if |typo| < 3 {
        continue;
      }
      if |typo| < 4 && d > 1 {
        continue;
      }
      seen := seen + {(typo, genuine)};
      out := out + [(typo, genuine)];
      at := at + [i];
    }
    assert pairs[..|pairs|] == pairs;
    assert Filtered(pairs, out, at);
    assert forall p :: p in out <==> p in pairs && Detectable(p.0, p.1);
  }

  /** Generated names of four characters or more always survive the filter; shorter ones exactly when
      they are one edit away. */
  lemma {:induction false} GeneratedTyposSurvive(name: string, v: string, alnum: char -> bool)
    requires IsVariant(name, v) && Passes(alnum, name, v)
    ensures Detectable(v, name) <==> |v| >= 4 || Lev(v, name) == 1
  {
    hide Lev;
    VariantWithinTwo(name, v);
  }

  // ---------------------------------------------------------------- does the scanner report them?

  /** The index lists the real name for a kept typo exactly when the typo has four characters, or the real name
      is curated and is itself short or starts with the same character. */
  lemma {:induction false} KeptPairIsListedIff(typo: string, genuine: string, corpus: set<string>, priority: set<string>, m: Metric)
    requires Detectable(typo, genuine)
    ensures Listed(corpus, priority, m, typo, Match(genuine, Weighted(m, genuine, typo))) <==>
              && genuine in corpus && typo[0] != '@'
              && (|typo| >= 4 || (genuine in priority && (|genuine| < 4 || genuine[0] == typo[0])))
  {
    hide Lev, Weighted;
    WeightedAtMostLev(m, genuine, typo);
    LevSymmetric(genuine, typo);
  }

  /** The filter is meant to leave the typos the scanner detects. For a dependency looked up as a kept typo, a
      rule names the real name if and only if the typo is neither in the corpus nor known as legitimate, is long
      enough for the rule, the index lists the real name, and outside npm nothing listed comes before it. */
  lemma {:induction false} KeptPairIsReportedIff(rule: Rule, dep: string, typo: string, genuine: string,
                                                 corpus: set<string>, priority: set<string>)
    requires Detectable(typo, genuine) && Compared(rule, dep) == typo
    ensures
      var m := MetricOf(rule);
      Names(rule, corpus, priority, dep, genuine) <==>
        && typo !in corpus && typo !in rule.known && (rule.Standard? ==> |typo| >= rule.minLength)
        && genuine in corpus && typo[0] != '@'
        && (|typo| >= 4 || (genuine in priority && (|genuine| < 4 || genuine[0] == typo[0])))
        && (rule.Npm? || Foremost(corpus, priority, m, typo, Match(genuine, Weighted(m, genuine, typo))))
  {
    hide Lev, Weighted, Listed, Names, Foremost;
    NamesIff(rule, corpus, priority, dep, genuine);
    KeptPairIsListedIff(typo, genuine, corpus, priority, MetricOf(rule));
  }

  /** A generated typo of at least four characters leads to its origin, unless it is itself popular or known as
      legitimate or too short for the rule, or outside npm a listed match comes before the origin. */
  lemma {:induction false} GeneratedTypoIsReportedIff(rule: Rule, dep: string, name: string, v: string, alnum: char -> bool,
                                                      corpus: set<string>, priority: set<string>)
    requires IsVariant(name, v) && Passes(alnum, name, v) && |v| >= 4 && !alnum('@')
    requires Compared(rule, dep) == v && name in corpus
    ensures
      var m := MetricOf(rule);
      Names(rule, corpus, priority, dep, name) <==>
        && v !in corpus && v !in rule.known && (rule.Standard? ==> |v| >= rule.minLength)
        && (rule.Npm? || Foremost(corpus, priority, m, v, Match(name, Weighted(m, name, v))))
  {
    hide Lev, Weighted, Names, Foremost;
    GeneratedTyposSurvive(name, v, alnum);
    assert alnum(v[0]);
    KeptPairIsReportedIff(rule, dep, v, name, corpus, priority);
  }

  // ---------------------------------------------------------------- kept pairs that are missed

  lemma {:induction false} ByOneEdit(name: string, e: Edit, v: string)
    requires Applicable(e, name) && v == Apply(e, name) && v != name
    ensures Lev(v, name) == 1
  {
    hide Lev;
    OneEdit(name, e, v);
    LevZeroIffEqual(v, name);
  }

  /** "ext" survives the filter as a typo of "next", but no rule names "next" for it. */
  lemma {:induction false} KeptPairCanBeMissed(rule: Rule, dep: string, corpus: set<string>, priority: set<string>)
    requires Compared(rule, dep) == "ext"
    ensures Detectable("ext", "next") && !Names(rule, corpus, priority, dep, "next")
  {
    hide Lev, Weighted, Names, Foremost;
    assert Apply(Delete(0), "next") == "ext";
    ByOneEdit("next", Delete(0), "ext");
    KeptPairIsReportedIff(rule, dep, "ext", "next", corpus, priority);
  }

  /** "preact" is a variant of "react" and survives the filter; being popular itself, it is never reported. */
  lemma {:induction false} PopularTypoIsSkipped(rule: Rule, dep: string, corpus: set<string>, priority: set<string>)
    requires Compared(rule, dep) == "preact" && ("preact" in corpus || "preact" in rule.known)
    ensures IsVariant("react", "preact") && Detectable("preact", "react")
    ensures forall genuine :: !Names(rule, corpus, priority, dep, genuine)
  {
    hide Lev, Listed, Foremost, Listing, IsVariant;
    PreactIsVariant();
  }

  lemma {:induction false} PreactIsVariant()
    ensures Lev("preact", "react") == 1 && IsVariant("react", "preact")
  {
    hide Lev, IsVariant;
    assert Apply(Insert(0, 'p'), "react") == "preact";
    ByOneEdit("react", Insert(0, 'p'), "preact");
    LevSymmetric("preact", "react");
    assert ALPHABET[15] == 'p';
    EditAdds(Insert(0, 'p'), "react");
    NeighbourIsVariantIff("react", "preact");
  }

  /** "preactt" survives the filter as a typo of "react"; the shared rule names the closer "preact" instead, the npm
      rule names both. */
  lemma {:induction false} CloserNameHides(rule: Rule, dep: string, corpus: set<string>, priority: set<string>)
    requires Compared(rule, dep) == "preactt" && {"react", "preact"} <= corpus && "preactt" !in corpus
    requires "preactt" !in rule.known && (rule.Standard? ==> rule.minLength <= 7 && rule.metric == Unit)
    ensures Detectable("preactt", "react")
    ensures Names(rule, corpus, priority, dep, "react") <==> rule.Npm?
  {
    hide Lev, Weighted, Names, Listed, StringLe;
    assert Apply(Insert(0, 'p'), "react") == "preact" && Apply(Insert(6, 't'), "preact") == "preactt";
    ByOneEdit("react", Insert(0, 'p'), "preact");
    ByOneEdit("preact", Insert(6, 't'), "preactt");
    LevTriangle("preactt", "preact", "react");
    LevBounds("preactt", "react");
    KeptPairIsReportedIff(rule, dep, "preactt", "react", corpus, priority);
    KeptPairIsListedIff("preactt", "preact", corpus, priority, Unit);
    UnitIsLev("react", "preactt");
    UnitIsLev("preact", "preactt");
    LevSymmetric("react", "preactt");
    LevSymmetric("preact", "preactt");
    var y := Match("preact", Weighted(Unit, "preact", "preactt"));
    assert Listed(corpus, priority, Unit, "preactt", y);
    assert !MatchLe(Match("react", Weighted(Unit, "react", "preactt")), y);
  }
}
