/**
  The two cuckoo tables of the top-K structure.

  An item has a fingerprint and one bucket in each table; either bucket's index can be
  computed from the other one and the fingerprint.  A heavy entry that is pushed out of its
  bucket moves to its other bucket, where it may push out another one, a bounded number of
  times.
*/
module CuckooTable {
  type Word = bv64

  const MAX_KICKS := 16
  const COUNT_MAX := 0xFFFF_FFFF_FFFF_FFFF

  /** A heavy entry; it is empty when the count is zero. */
  datatype Entry = Entry(count: nat, fp: Word)

  datatype Bucket = Bucket(heavy0: Entry, heavy1: Entry)

  datatype Place = Place(second: bool, idx: Word)

  // ---- Indexes ----

  function Mix(fp: Word): Word {
    0x5bd1e995 * fp
  }

  /** The index in the other table; `mask` is the number of buckets, a power of two, less one. */
  function AltIdx(fp: Word, idx: Word, mask: Word): Word {
    (idx ^ Mix(fp)) & mask
  }

  predicate InTable(idx: Word, mask: Word) {
    idx & mask == idx
  }

  lemma MixTwice(idx: Word, m: Word, mask: Word)
    ensures (((idx ^ m) & mask) ^ m) & mask == idx & mask
    ensures ((idx ^ m) & mask) & mask == (idx ^ m) & mask
  {
  }

  /** Going to the other table and back returns to the same bucket. */
  lemma AltInvolution(fp: Word, idx: Word, mask: Word)
    requires InTable(idx, mask)
    ensures InTable(AltIdx(fp, idx, mask), mask)
    ensures AltIdx(fp, AltIdx(fp, idx, mask), mask) == idx
  {
    hide Mix;
    MixTwice(idx, Mix(fp), mask);
  }

  /** The other bucket of an entry. */
  function Other(fp: Word, p: Place, mask: Word): Place {
    Place(!p.second, AltIdx(fp, p.idx, mask))
  }

  /** The index in the first table of an entry found at a place. */
  function Home(fp: Word, p: Place, mask: Word): Word {
    if p.second then AltIdx(fp, p.idx, mask) else p.idx
  }

  /** The two buckets a lookup of an item probes, from its fingerprint and first index. */
  function Probes(fp: Word, home: Word, mask: Word): set<Place> {
    {Place(false, home), Place(true, AltIdx(fp, home, mask))}
  }

  /** Moving an entry to its other bucket keeps its home; and wherever it is, its lookup probes that place. */
  lemma MoveKeepsHome(fp: Word, p: Place, mask: Word)
    requires InTable(p.idx, mask)
    ensures Home(fp, Other(fp, p, mask), mask) == Home(fp, p, mask)
    ensures InTable(Other(fp, p, mask).idx, mask)
    ensures p in Probes(fp, Home(fp, p, mask), mask)
  {
    hide AltIdx;
    AltInvolution(fp, p.idx, mask);
  }

  // ---- What the tables hold ----

  /** An entry by what a lookup can tell of it. */
  datatype Token = Token(fp: Word, count: nat, home: Word)

  type Buckets = map<Place, Bucket>

  function TokenAt(e: Entry, p: Place, mask: Word): multiset<Token> {
    if e.count == 0 then multiset{} else multiset{Token(e.fp, e.count, Home(e.fp, p, mask))}
  }

  function BucketTokens(b: Bucket, p: Place, mask: Word): multiset<Token> {
    TokenAt(b.heavy0, p, mask) + TokenAt(b.heavy1, p, mask)
  }

  ghost function Tokens(places: set<Place>, buckets: Buckets, mask: Word): multiset<Token>
    requires places <= buckets.Keys
    decreases |places|
  {
    if places == {} then multiset{}
    else
      var p :| p in places;
      BucketTokens(buckets[p], p, mask) + Tokens(places - {p}, buckets, mask)
  }

  lemma {:induction false} TokensRemove(places: set<Place>, buckets: Buckets, mask: Word, p: Place)
    requires places <= buckets.Keys && p in places
    ensures Tokens(places, buckets, mask) == BucketTokens(buckets[p], p, mask) + Tokens(places - {p}, buckets, mask)
    decreases |places|
  {
    hide BucketTokens;
    var q :| q in places && Tokens(places, buckets, mask)
                         == BucketTokens(buckets[q], q, mask) + Tokens(places - {q}, buckets, mask);
    if q != p {
      TokensRemove(places - {q}, buckets, mask, p);
      TokensRemove(places - {p}, buckets, mask, q);
      assert places - {q} - {p} == places - {p} - {q};
    }
  }

  lemma {:induction false} TokensElsewhere(places: set<Place>, buckets: Buckets, mask: Word, p: Place, b: Bucket)
    requires places <= buckets.Keys && p !in places
    ensures Tokens(places, buckets[p := b], mask) == Tokens(places, buckets, mask)
    decreases |places|
  {
    hide BucketTokens;
    if places != {} {
      var q :| q in places;
      TokensRemove(places, buckets, mask, q);
      TokensRemove(places, buckets[p := b], mask, q);
      TokensElsewhere(places - {q}, buckets, mask, p, b);
    }
  }

  /** Replacing one bucket changes the tokens by that bucket's. */
  lemma TokensUpdate(buckets: Buckets, mask: Word, p: Place, b: Bucket)
    requires p in buckets
    ensures Tokens(buckets[p := b].Keys, buckets[p := b], mask) + BucketTokens(buckets[p], p, mask)
         == Tokens(buckets.Keys, buckets, mask) + BucketTokens(b, p, mask)
  {
    hide BucketTokens;
    var places := buckets.Keys;
    assert buckets[p := b].Keys == places;
    TokensRemove(places, buckets, mask, p);
    TokensRemove(places, buckets[p := b], mask, p);
    TokensElsewhere(places - {p}, buckets, mask, p, b);
  }

  predicate Holds(b: Bucket, fp: Word, count: nat) {
    b.heavy0 == Entry(count, fp) || b.heavy1 == Entry(count, fp)
  }

  lemma TokenOfBucket(b: Bucket, p: Place, mask: Word, t: Token)
    requires t in BucketTokens(b, p, mask)
    ensures Holds(b, t.fp, t.count) && t.home == Home(t.fp, p, mask)
  {
    hide Home;
  }

  /** Every entry the tables hold is in one of the two buckets that its lookup probes. */
  lemma {:induction false} EntryIsProbed(places: set<Place>, buckets: Buckets, mask: Word, t: Token) returns (p: Place)
    requires places <= buckets.Keys && t in Tokens(places, buckets, mask)
    requires forall q :: q in places ==> InTable(q.idx, mask)
    ensures p in places && p in Probes(t.fp, t.home, mask) && Holds(buckets[p], t.fp, t.count)
    decreases |places|
  {
    hide AltIdx, InTable, Home, Probes, BucketTokens, Holds;
    p :| p in places;
    TokensRemove(places, buckets, mask, p);
    if t in BucketTokens(buckets[p], p, mask) {
      TokenOfBucket(buckets[p], p, mask, t);
      MoveKeepsHome(t.fp, p, mask);
    } else {
      p := EntryIsProbed(places - {p}, buckets, mask, t);
    }
  }

  // ---- Kicking out ----

  /** Put an entry in place of one of the two in a bucket. */
  function Put(b: Bucket, pos: nat, e: Entry): Bucket {
    if pos == 0 then b.(heavy0 := e) else b.(heavy1 := e)
  }

  function Get(b: Bucket, pos: nat): Entry {
    if pos == 0 then b.heavy0 else b.heavy1
  }

  predicate Countable(b: Bucket) {
    b.heavy0.count <= COUNT_MAX && b.heavy1.count <= COUNT_MAX
  }

  /**
    The first empty spot of a bucket, or else the one with the lower count, the first if they
    are equal.  There is none when both counts are the largest: no count is below it.
  */
  function Spot(b: Bucket): int {
    if b.heavy0.count == 0 then 0
    else if b.heavy1.count == 0 then 1
    else if b.heavy0.count >= COUNT_MAX && b.heavy1.count >= COUNT_MAX then -1
    else if b.heavy1.count < b.heavy0.count then 1
    else 0
  }

  /**
    How the kicks end: all entries have a place, or one is dropped, or one is in hand when
    its other bucket has no spot to give and the program uses the index -1.
  */
  datatype Ending = Settled | Dropped(token: Token) | Stuck(token: Token)

  /** The entry that has no place at the end. */
  function LeftOut(end: Ending): multiset<Token> {
    if end.Settled? then multiset{} else multiset{end.token}
  }

  /** What up to n kicks leave of the tables, and how they end. */
  function Kicked(buckets: Buckets, mask: Word, e: Entry, p: Place, isHeavy: nat -> bool, n: nat): (Buckets, Ending)
    decreases n
  {
    var at, token := Other(e.fp, p, mask), Token(e.fp, e.count, Home(e.fp, p, mask));
    if n == 0 || !isHeavy(e.count) || at !in buckets then (buckets, Dropped(token))
    else
      var pos := Spot(buckets[at]);
      if pos < 0 then (buckets, Stuck(token))
      else
        var pushed, after := Get(buckets[at], pos), buckets[at := Put(buckets[at], pos, e)];
        if pushed.count == 0 then (after, Settled) else Kicked(after, mask, pushed, at, isHeavy, n - 1)
  }

  lemma Cancel(x: multiset<Token>, y: multiset<Token>, z: multiset<Token>)
    requires x + z == y + z
    ensures x == y
  {
    assert forall t :: (x + z)[t] == x[t] + z[t] && (y + z)[t] == y[t] + z[t];
    assert forall t :: x[t] == y[t];
  }

  /** An entry enters a bucket where another one, or nothing, was. */
  lemma PutTokens(buckets: Buckets, mask: Word, p: Place, pos: nat, e: Entry)
    requires p in buckets && pos < 2
    ensures Tokens(buckets[p := Put(buckets[p], pos, e)].Keys, buckets[p := Put(buckets[p], pos, e)], mask)
              + TokenAt(Get(buckets[p], pos), p, mask)
         == Tokens(buckets.Keys, buckets, mask) + TokenAt(e, p, mask)
  {
    hide TokenAt, Tokens;
    var b := Put(buckets[p], pos, e);
    TokensUpdate(buckets, mask, p, b);
    var stays := TokenAt(Get(buckets[p], 1 - pos), p, mask);
    var after, before := Tokens(buckets[p := b].Keys, buckets[p := b], mask), Tokens(buckets.Keys, buckets, mask);
    var gone, came := TokenAt(Get(buckets[p], pos), p, mask), TokenAt(e, p, mask);
    assert BucketTokens(buckets[p], p, mask) == gone + stays;
    assert BucketTokens(b, p, mask) == came + stays;
    assert after + gone + stays == after + (gone + stays);
    assert before + came + stays == before + (came + stays);
    Cancel(after + gone, before + came, stays);
  }

  function Places(indexes: set<Word>): (s: set<Place>)
    ensures forall second, idx :: Place(second, idx) in s <==> idx in indexes
  {
    (set idx | idx in indexes :: Place(false, idx)) + (set idx | idx in indexes :: Place(true, idx))
  }

  class TopK {
    const mask: Word
    var buckets: Buckets

    /** Empty tables, over all indexes that masking can give. */
    constructor (mask: Word, indexes: set<Word>)
      requires forall idx :: InTable(idx, mask) <==> idx in indexes
      ensures Valid() && this.mask == mask
    {
      hide InTable;
      this.mask := mask;
      buckets := map p | p in Places(indexes) :: Bucket(Entry(0, 0), Entry(0, 0));
    }

    /** Every index that masking can give has a bucket in both tables. */
    ghost predicate Valid()
      reads this
    {
      && (forall second, idx :: InTable(idx, mask) ==> Place(second, idx) in buckets)
      && (forall p :: p in buckets ==> InTable(p.idx, mask) && Countable(buckets[p]))
    }

    ghost function Contents(): multiset<Token>
      reads this
    {
      Tokens(buckets.Keys, buckets, mask)
    }

    /** Look for a spot: the first empty one, or else the one with the lower count, or else -1. */
    method FindSpot(b: Bucket) returns (pos: int)
      requires Countable(b)
      ensures pos == Spot(b) && -1 <= pos < 2
      ensures pos == -1 <==> b.heavy0.count == b.heavy1.count == COUNT_MAX
      ensures pos >= 0 && Get(b, pos).count != 0 ==>
                forall j :: 0 <= j < 2 ==> 0 < Get(b, pos).count <= Get(b, j).count
    {
      var min := COUNT_MAX;
      pos := -1;
      for j := 0 to 2
        invariant j >= 1 ==> b.heavy0.count > 0
        invariant j == 2 ==> b.heavy1.count > 0
        invariant j == 0 ==> min == COUNT_MAX && pos == -1
        invariant j == 1 ==> min == b.heavy0.count && pos == if min == COUNT_MAX then -1 else 0
        invariant j == 2 ==> pos == Spot(b)
      {
        if Get(b, j).count == 0 {
          pos := j;
          return;
        }
        if Get(b, j).count < min {
          min := Get(b, j).count;
          pos := j;
        }
      }
    }

    /** One kick, if there is a spot: the entry takes it in its other bucket, from an entry or from none. */
    method Kick(entry: Entry, from: Place) returns (moved: bool, pushed: Entry, at: Place)
      requires Valid() && InTable(from.idx, mask) && 0 < entry.count <= COUNT_MAX
      modifies this
      ensures Valid() && InTable(at.idx, mask) && pushed.count <= COUNT_MAX
      ensures Contents() + TokenAt(pushed, at, mask) == old(Contents()) + TokenAt(entry, from, mask)
      ensures var other := Other(entry.fp, from, mask);
              && other in old(buckets)
              && var pos := Spot(old(buckets)[other]);
              && (moved <==> pos >= 0)
              && (moved ==>
                    && at == other && pushed == Get(old(buckets)[at], pos)
                    && buckets == old(buckets)[at := Put(old(buckets)[at], pos, entry)])
              && (!moved ==> at == from && pushed == entry && buckets == old(buckets))
    {
      hide InTable, AltIdx, Home, Tokens, BucketTokens;
      MoveKeepsHome(entry.fp, from, mask);
      at := Other(entry.fp, from, mask);
      var b := buckets[at];
      var pos := FindSpot(b);
      if pos < 0 {
        return false, entry, from;
      }
      moved, pushed := true, Get(b, pos);
      PutTokens(buckets, mask, at, pos, entry);
      buckets := buckets[at := Put(b, pos, entry)];
    }

    /**
      Move an entry that lost its place to its other bucket, and on with the one it pushes
      out, at most MAX_KICKS times and only while the entry counts as a heavy hitter.  All
      entries stay, with their counts and homes, except at most the last one pushed out.
    */
    method Kickout(start: Entry, from: Place, isHeavy: nat -> bool) returns (end: Ending)
      requires Valid() && InTable(from.idx, mask) && 0 < start.count <= COUNT_MAX
      modifies this
      ensures Valid()
      ensures Contents() + LeftOut(end)
           == old(Contents()) + multiset{Token(start.fp, start.count, Home(start.fp, from, mask))}
      ensures (buckets, end) == Kicked(old(buckets), mask, start, from, isHeavy, MAX_KICKS)
    {
      hide InTable, Home, Contents, Countable, AltIdx, Spot, Put, Get;
      var entry, p := start, from;
      ghost var all := Contents() + TokenAt(start, from, mask);
      ghost var outcome := Kicked(buckets, mask, start, from, isHeavy, MAX_KICKS);
      for i := 0 to MAX_KICKS
        invariant Valid() && InTable(p.idx, mask) && 0 < entry.count <= COUNT_MAX
        invariant Contents() + TokenAt(entry, p, mask) == all
        invariant Kicked(buckets, mask, entry, p, isHeavy, MAX_KICKS - i) == outcome
      {
        if !isHeavy(entry.count) {
          return Dropped(Token(entry.fp, entry.count, Home(entry.fp, p, mask)));
        }
        var moved;
        moved, entry, p := Kick(entry, p);
        if !moved {
          return Stuck(Token(entry.fp, entry.count, Home(entry.fp, p, mask)));
        }
        if entry.count == 0 {
          return Settled;
        }
      }
      end := Dropped(Token(entry.fp, entry.count, Home(entry.fp, p, mask)));
    }
  }
}
