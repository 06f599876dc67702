/** The piece sequencer: a 7-bag randomiser. When the bag is empty it is
    refilled with the seven names in a random order, picked one at a time
    from a shrinking list; every draw takes the last name of the bag.
    The random indices are inputs of the model. */
module Sequencer {
  import opened Tetrominos

  /** The refill list, in the order the source writes it. */
  const Names: seq<Name> := [I, J, L, O, S, T, Z]

  /** No entry occurs twice. */
  predicate Distinct(s: seq<Name>)
  {
    s == [] || (s[0] !in s[1..] && Distinct(s[1..]))
  }

  /** `rolls` can drive a shuffle of n names: the first pick is an index
      into a list of n names, the next into a list of n - 1, and so on. */
  predicate RollsFor(rolls: seq<nat>, n: nat)
  {
    n == 0 || (rolls != [] && rolls[0] < n && RollsFor(rolls[1..], n - 1))
  }

  /** Distinct means that no two positions hold the same name. */
  lemma {:induction false} DistinctIffNoRepeats(s: seq<Name>)
    ensures Distinct(s) <==> forall a, b :: 0 <= a < b < |s| ==> s[a] != s[b]
  {
    if s != [] {
      DistinctIffNoRepeats(s[1..]);
      if Distinct(s) {
        forall a, b | 0 <= a < b < |s| ensures s[a] != s[b] {
          if a == 0 {
            assert s[b] == s[1..][b - 1];
          } else {
            assert s[a] == s[1..][a - 1] && s[b] == s[1..][b - 1];
          }
        }
      }
      if forall a, b :: 0 <= a < b < |s| ==> s[a] != s[b] {
        forall a, b | 0 <= a < b < |s| - 1 ensures s[1..][a] != s[1..][b] {
          assert s[1..][a] == s[a + 1] && s[1..][b] == s[b + 1];
        }
        forall b | 0 <= b < |s| - 1 ensures s[1..][b] != s[0] {
          assert s[1..][b] == s[b + 1];
        }
      }
    }
  }

  /** The list with its k-th entry spliced out. */
  function RemoveAt(s: seq<Name>, k: nat): (r: seq<Name>)
    requires k < |s|
    ensures |r| == |s| - 1
    ensures forall i :: 0 <= i < |r| ==> r[i] == s[if i < k then i else i + 1]
  {
    s[..k] + s[k + 1..]
  }

  /** Splicing out the k-th entry removes one occurrence of it. */
  lemma RemoveAtTakesOneOut(s: seq<Name>, k: nat)
    requires k < |s|
    ensures multiset(RemoveAt(s, k)) + multiset{s[k]} == multiset(s)
  {
    assert s == s[..k] + [s[k]] + s[k + 1..];
  }

  /** Splicing an entry out of a distinct list leaves a distinct list
      without that entry. */
  lemma RemoveAtKeepsDistinct(s: seq<Name>, k: nat)
    requires Distinct(s) && k < |s|
    ensures Distinct(RemoveAt(s, k)) && s[k] !in RemoveAt(s, k)
  {
    var r := RemoveAt(s, k);
    DistinctIffNoRepeats(s);
    forall a, b | 0 <= a < b < |r| ensures r[a] != r[b] {
      var a' := if a < k then a else a + 1;
      var b' := if b < k then b else b + 1;
      assert r[a] == s[a'] && r[b] == s[b'];
    }
    DistinctIffNoRepeats(r);
    forall a | 0 <= a < |r| ensures r[a] != s[k] {
      assert r[a] == s[if a < k then a else a + 1];
    }
  }

  /** The refill loop: pick the name at the next random index, splice it
      out of the list and append it to the bag, until the list is empty.
      The result is a permutation of the list. */
  function Shuffle(s: seq<Name>, rolls: seq<nat>): (r: seq<Name>)
    requires RollsFor(rolls, |s|)
    ensures |r| == |s|
    decreases |s|
  {
    if s == [] then []
    else [s[rolls[0]]] + Shuffle(RemoveAt(s, rolls[0]), rolls[1..])
  }

  /** A shuffle is a permutation of the list it starts from. */
  lemma {:induction false} ShuffleIsPermutation(s: seq<Name>, rolls: seq<nat>)
    requires RollsFor(rolls, |s|)
    ensures multiset(Shuffle(s, rolls)) == multiset(s)
    decreases |s|
  {
    if s != [] {
      RemoveAtTakesOneOut(s, rolls[0]);
      ShuffleIsPermutation(RemoveAt(s, rolls[0]), rolls[1..]);
    }
  }

  /** A shuffle holds exactly the names of the list it starts from. */
  lemma ShuffleKeepsMembers(s: seq<Name>, rolls: seq<nat>)
    requires RollsFor(rolls, |s|)
    ensures forall n :: n in Shuffle(s, rolls) <==> n in s
  {
    ShuffleIsPermutation(s, rolls);
    forall n ensures n in Shuffle(s, rolls) <==> n in s {
      assert n in Shuffle(s, rolls) <==> n in multiset(Shuffle(s, rolls));
    }
  }

  /** A shuffle of a distinct list is distinct. */
  lemma {:induction false} ShuffleKeepsDistinct(s: seq<Name>, rolls: seq<nat>)
    requires RollsFor(rolls, |s|) && Distinct(s)
    ensures Distinct(Shuffle(s, rolls))
    decreases |s|
  {
    if s != [] {
      var k := rolls[0];
      RemoveAtKeepsDistinct(s, k);
      ShuffleKeepsDistinct(RemoveAt(s, k), rolls[1..]);
      ShuffleIsPermutation(RemoveAt(s, k), rolls[1..]);
      var tail := Shuffle(RemoveAt(s, k), rolls[1..]);
      assert s[k] !in multiset(tail);
      assert ([s[k]] + tail)[1..] == tail;
    }
  }

  /** Every name occurs, and none twice. */
  predicate EachNameOnce(s: seq<Name>)
  {
    Distinct(s) && forall n: Name :: n in s
  }

  /** The refill list holds each name exactly once. */
  lemma NamesListsEachOnce()
    ensures EachNameOnce(Names)
  {
    forall n: Name ensures n in Names {
      match n
      case I => assert Names[0] == n;
      case J => assert Names[1] == n;
      case L => assert Names[2] == n;
      case O => assert Names[3] == n;
      case S => assert Names[4] == n;
      case T => assert Names[5] == n;
      case Z => assert Names[6] == n;
    }
  }

  /** A fresh bag: the refill list shuffled by the random picks. */
  function Refill(rolls: seq<nat>): (r: seq<Name>)
    requires RollsFor(rolls, |Names|)
    ensures |r| == |Names|
  {
    Shuffle(Names, rolls)
  }

  /** A fresh bag holds each of the seven names exactly once. */
  lemma RefillHoldsEveryNameOnce(rolls: seq<nat>)
    requires RollsFor(rolls, |Names|)
    ensures EachNameOnce(Refill(rolls))
  {
    NamesListsEachOnce();
    ShuffleKeepsDistinct(Names, rolls);
    ShuffleKeepsMembers(Names, rolls);
  }

  /** Popping the last name of a distinct bag leaves a distinct bag
      without that name. */
  lemma PopKeepsDistinct(full: seq<Name>)
    requires full != [] && Distinct(full)
    ensures Distinct(full[..|full| - 1]) && full[|full| - 1] !in full[..|full| - 1]
  {
    var front := full[..|full| - 1];
    DistinctIffNoRepeats(full);
    forall a, b | 0 <= a < b < |front| ensures front[a] != front[b] {
      assert front[a] == full[a] && front[b] == full[b];
    }
    DistinctIffNoRepeats(front);
    forall a | 0 <= a < |front| ensures front[a] != full[|full| - 1] {
      assert front[a] == full[a];
    }
  }

  /** One draw: refill the bag first when it is empty, then pop its last
      name. The result is the drawn name and the bag that remains. */
  function Draw(bag: seq<Name>, rolls: seq<nat>): (d: (Name, seq<Name>))
    requires RollsFor(rolls, |Names|)
    ensures bag != [] ==> |d.1| == |bag| - 1 && d.0 == bag[|d.1|] && d.1 == bag[..|d.1|]
    ensures bag == [] ==> |d.1| == |Names| - 1 && d.0 == Refill(rolls)[|d.1|] && d.1 == Refill(rolls)[..|d.1|]
  {
    var full := if bag == [] then Refill(rolls) else bag;
    (full[|full| - 1], full[..|full| - 1])
  }

  /** A draw from a distinct bag, or from an empty one, leaves a distinct
      bag of fewer than seven names that no longer holds the drawn name. */
  lemma DrawKeepsDistinct(bag: seq<Name>, rolls: seq<nat>)
    requires RollsFor(rolls, |Names|) && Distinct(bag) && |bag| <= |Names|
    ensures var d := Draw(bag, rolls); Distinct(d.1) && d.0 !in d.1 && |d.1| < |Names|
  {
    if bag == [] {
      RefillHoldsEveryNameOnce(rolls);
      PopKeepsDistinct(Refill(rolls));
    } else {
      PopKeepsDistinct(bag);
    }
  }

  /** The list back to front. */
  function Reverse(s: seq<Name>): (r: seq<Name>)
    ensures |r| == |s|
  {
    if s == [] then [] else [s[|s| - 1]] + Reverse(s[..|s| - 1])
  }

  /** Reversing keeps the entries and their distinctness. */
  lemma {:induction false} ReverseKeepsEntries(s: seq<Name>)
    ensures forall i :: 0 <= i < |s| ==> Reverse(s)[i] == s[|s| - 1 - i]
    ensures forall n :: n in Reverse(s) <==> n in s
    ensures Distinct(s) ==> Distinct(Reverse(s))
  {
    if s != [] {
      var front := s[..|s| - 1];
      ReverseKeepsEntries(front);
      assert s == front + [s[|s| - 1]];
      var r := Reverse(s);
      forall i | 0 <= i < |s| ensures r[i] == s[|s| - 1 - i] {
        if i > 0 {
          assert r[i] == Reverse(front)[i - 1];
        }
      }
      forall n ensures n in r <==> n in s {
        if n in s {
          var i :| 0 <= i < |s| && s[i] == n;
          assert r[|s| - 1 - i] == n;
        }
      }
      if Distinct(s) {
        DistinctIffNoRepeats(s);
        forall a, b | 0 <= a < b < |r| ensures r[a] != r[b] {
        }
        DistinctIffNoRepeats(r);
      }
    }
  }

  /** Every entry of rs can drive a refill. */
  predicate AllRollsFor(rs: seq<seq<nat>>)
  {
    rs == [] || (RollsFor(rs[0], |Names|) && AllRollsFor(rs[1..]))
  }

  /** Draws in a row, one random source per draw: the names drawn, in
      order, and the bag left afterwards. */
  function DrawMany(bag: seq<Name>, rs: seq<seq<nat>>): (r: (seq<Name>, seq<Name>))
    requires AllRollsFor(rs)
    ensures |r.0| == |rs|
    decreases |rs|
  {
    if rs == [] then ([], bag)
    else
      var d := Draw(bag, rs[0]);
      var more := DrawMany(d.1, rs[1..]);
      ([d.0] + more.0, more.1)
  }

  /** Drawing as many times as the bag holds names empties it and yields
      its names from last to first. */
  lemma {:induction false} DrainBag(bag: seq<Name>, rs: seq<seq<nat>>)
    requires AllRollsFor(rs) && |rs| == |bag|
    ensures DrawMany(bag, rs) == (Reverse(bag), [])
    decreases |rs|
  {
    if rs != [] {
      var d := Draw(bag, rs[0]);
      DrainBag(d.1, rs[1..]);
    }
  }

  /** Seven draws from an empty bag refill it once, yield the fresh bag
      from last to first, and leave the bag empty again. */
  lemma SevenDrawsFromEmptyBag(rs: seq<seq<nat>>)
    requires AllRollsFor(rs) && |rs| == |Names|
    ensures DrawMany([], rs) == (Reverse(Refill(rs[0])), [])
  {
    var d := Draw([], rs[0]);
    DrainBag(d.1, rs[1..]);
  }

  /** Both halves of a list of random sources are lists of random sources. */
  lemma {:induction false} AllRollsForSplit(rs: seq<seq<nat>>, n: nat)
    requires AllRollsFor(rs) && n <= |rs|
    ensures AllRollsFor(rs[..n]) && AllRollsFor(rs[n..])
    decreases n
  {
    if n > 0 {
      AllRollsForSplit(rs[1..], n - 1);
      assert rs[1..][..n - 1] == rs[..n][1..];
      assert rs[1..][n - 1..] == rs[n..];
    } else {
      assert rs[..0] == [] && rs[0..] == rs;
    }
  }

  /** Drawing from rs then from ts is drawing from rs + ts. */
  lemma {:induction false} DrawManyAppend(bag: seq<Name>, rs: seq<seq<nat>>, ts: seq<seq<nat>>)
    requires AllRollsFor(rs + ts)
    ensures AllRollsFor(rs) && AllRollsFor(ts)
    ensures var first := DrawMany(bag, rs);
      var second := DrawMany(first.1, ts);
      DrawMany(bag, rs + ts) == (first.0 + second.0, second.1)
    decreases |rs|
  {
    AllRollsForSplit(rs + ts, |rs|);
    assert (rs + ts)[..|rs|] == rs && (rs + ts)[|rs|..] == ts;
    if rs == [] {
      assert rs + ts == ts;
      assert [] + DrawMany(bag, ts).0 == DrawMany(bag, ts).0;
    } else {
      assert (rs + ts)[0] == rs[0] && (rs + ts)[1..] == rs[1..] + ts;
      var d := Draw(bag, rs[0]);
      DrawManyAppend(d.1, rs[1..], ts);
      var inner := DrawMany(d.1, rs[1..]);
      var second := DrawMany(inner.1, ts);
      assert [d.0] + (inner.0 + second.0) == ([d.0] + inner.0) + second.0;
    }
  }

  /** From an empty bag, the first seven draws are one refill, last-first,
      and the bag is empty again for the draws after them. */
  lemma FirstBlockFromEmptyBag(rs: seq<seq<nat>>)
    requires AllRollsFor(rs) && |rs| >= 7
    ensures AllRollsFor(rs[7..]) && RollsFor(rs[0], |Names|)
    ensures DrawMany([], rs).0 == Reverse(Refill(rs[0])) + DrawMany([], rs[7..]).0
    ensures DrawMany([], rs).1 == DrawMany([], rs[7..]).1
  {
    var first, rest := rs[..7], rs[7..];
    assert rs == first + rest;
    DrawManyAppend([], first, rest);
    SevenDrawsFromEmptyBag(first);
    assert first[0] == rs[0];
  }

  /** Starting from an empty bag, draws come in blocks of seven: block c
      is the fresh bag made at its first draw, read from last to first. */
  lemma {:induction false} DrawsComeInBlocksOfSeven(rs: seq<seq<nat>>, c: nat)
    requires AllRollsFor(rs)
    requires |rs| % 7 == 0 && c < |rs| / 7
    ensures |DrawMany([], rs).0| == |rs| && DrawMany([], rs).1 == []
    ensures RollsFor(rs[7 * c], |Names|)
    ensures DrawMany([], rs).0[7 * c..7 * c + 7] == Reverse(Refill(rs[7 * c]))
    decreases |rs|
  {
    FirstBlockFromEmptyBag(rs);
    var rest := rs[7..];
    if rest == [] {
      assert DrawMany([], rest) == ([], []);
    }
    var a, b := Reverse(Refill(rs[0])), DrawMany([], rest).0;
    if c == 0 {
      if rest != [] {
        DrawsComeInBlocksOfSeven(rest, 0);
      }
      assert (a + b)[..7] == a;
    } else {
      DrawsComeInBlocksOfSeven(rest, c - 1);
      assert rs[7 * c] == rest[7 * (c - 1)];
      SliceBehindBlock(a, b, c - 1);
    }
  }

  /** A block of seven behind a first block of seven. */
  lemma SliceBehindBlock(a: seq<Name>, b: seq<Name>, i: nat)
    requires |a| == 7 && 7 * i + 7 <= |b|
    ensures (a + b)[7 * (i + 1)..7 * (i + 1) + 7] == b[7 * i..7 * i + 7]
  {
  }

  /** Starting from an empty bag, every block of seven consecutive draws
      holds each name exactly once. */
  lemma EveryCycleOfSevenHoldsEachNameOnce(rs: seq<seq<nat>>, c: nat)
    requires AllRollsFor(rs)
    requires |rs| % 7 == 0 && c < |rs| / 7
    ensures |DrawMany([], rs).0| == |rs|
    ensures EachNameOnce(DrawMany([], rs).0[7 * c..7 * c + 7])
  {
    DrawsComeInBlocksOfSeven(rs, c);
    var bag := Refill(rs[7 * c]);
    RefillHoldsEveryNameOnce(rs[7 * c]);
    ReverseKeepsEntries(bag);
  }
}
