/** The pair counter of `process_file` (app.py:40-50): group the entries by
    mail, take each group's distinct campaign names, and count every
    unordered pair of them under a single dictionary key. */
module PairCounting {
  import opened Collections
  import opened Tables

  /** A key of the counter: the two campaign names, in the orientation first seen. */
  type Pair = (string, string)

  /** Every mail that occurs in the entries. */
  ghost function Mails(rs: seq<Entry>): set<string>
  {
    set e | e in rs :: e.mail
  }

  /** Every campaign name that occurs in the entries. */
  ghost function Campaigns(rs: seq<Entry>): set<string>
  {
    set e | e in rs :: e.campaign
  }

  /** The mails that occur both with campaign `a` and with campaign `b`. */
  ghost function SharingMails(rs: seq<Entry>, a: string, b: string): set<string>
  {
    set m | m in Mails(rs) && Entry(m, a) in rs && Entry(m, b) in rs
  }

  /** What the matrix cell for `a` and `b` should hold: the number of distinct
      mails whose campaign names include both, and nothing on the diagonal. */
  ghost function Cell(rs: seq<Entry>, a: string, b: string): nat
  {
    if a == b then 0 else |SharingMails(rs, a, b)|
  }

  /** The count the dictionary holds for the unordered pair of `a` and `b`,
      looking the key up in both orientations as the source does. */
  function Lookup(m: map<Pair, nat>, a: string, b: string): nat
  {
    if (a, b) in m then m[(a, b)] else if (b, a) in m then m[(b, a)] else 0
  }

  /** At most one orientation of each pair is a key (so no key pairs a name with itself). */
  ghost predicate SingleKeyed(m: map<Pair, nat>)
  {
    forall a, b :: (a, b) in m ==> (b, a) !in m
  }

  /** Both names of every key are among `names`. */
  ghost predicate KeysWithin(m: map<Pair, nat>, names: set<string>)
  {
    forall p :: p in m ==> p.0 in names && p.1 in names
  }

  predicate SamePair(a: string, b: string, x: string, y: string)
  {
    (a == x && b == y) || (a == y && b == x)
  }

  /** One step of the counter (app.py:45-50): bump the key already present in
      either orientation, or start the pair at 1 under `(x, y)`. */
  function Increment(m: map<Pair, nat>, x: string, y: string): (r: map<Pair, nat>)
    requires SingleKeyed(m)
    requires x != y
    ensures SingleKeyed(r)
    ensures r.Keys == if (y, x) in m then m.Keys else m.Keys + {(x, y)}
    ensures forall a, b :: Lookup(r, a, b) == Lookup(m, a, b) + (if SamePair(a, b, x, y) then 1 else 0)
  {
    if (x, y) in m then m[(x, y) := m[(x, y)] + 1]
    else if (y, x) in m then m[(y, x) := m[(y, x)] + 1]
    else m[(x, y) := 1]
  }

  /** The unordered pair of `a` and `b`, both in `names`, has been produced by
      `combinations(names, 2)` before the index pair `(i, j)`. */
  ghost predicate Enumerated(names: seq<string>, i: int, j: int, a: string, b: string)
  {
    a != b && a in names && b in names &&
    var p, q := IndexOf(names, a), IndexOf(names, b);
    var lo, hi := if p < q then p else q, if p < q then q else p;
    lo < i || (lo == i && hi < j)
  }

  lemma EnumeratedStep(names: seq<string>, i: int, j: int)
    requires Distinct(names) && 0 <= i < j < |names|
    ensures forall a, b ::
      ((if Enumerated(names, i, j + 1, a, b) then 1 else 0)
       == (if Enumerated(names, i, j, a, b) then 1 else 0) + (if a != b && SamePair(a, b, names[i], names[j]) then 1 else 0))
  {
  }

  lemma EnumeratedRowStart(names: seq<string>, i: int)
    requires 0 <= i
    ensures forall a, b :: Enumerated(names, i, i + 1, a, b) == Enumerated(names, i, i, a, b)
  {
  }

  lemma EnumeratedRowEnd(names: seq<string>, i: int)
    requires 0 <= i
    ensures forall a, b :: Enumerated(names, i, |names|, a, b) == Enumerated(names, i + 1, i + 1, a, b)
  {
  }

  lemma EnumeratedAll(names: seq<string>)
    ensures forall a, b :: Enumerated(names, |names|, |names|, a, b) == (a != b && a in names && b in names)
  {
  }

  /** The campaign names of the group of `mail`, in row order. */
  function GroupCampaigns(rs: seq<Entry>, mail: string): (r: seq<string>)
    ensures forall c :: c in r <==> Entry(mail, c) in rs
  {
    if rs == [] then []
    else
      assert rs == [rs[0]] + rs[1..];
      (if rs[0].mail == mail then [rs[0].campaign] else []) + GroupCampaigns(rs[1..], mail)
  }

  /** The mails among `ms` that occur with both `a` and `b`. */
  ghost function SharedAmong(rs: seq<Entry>, ms: seq<string>, a: string, b: string): set<string>
  {
    set m | m in ms && Entry(m, a) in rs && Entry(m, b) in rs
  }

  lemma SharedAmongSnoc(rs: seq<Entry>, ms: seq<string>, x: string, a: string, b: string)
    requires x !in ms
    ensures |SharedAmong(rs, ms + [x], a, b)|
      == |SharedAmong(rs, ms, a, b)| + (if Entry(x, a) in rs && Entry(x, b) in rs then 1 else 0)
  {
    var before, after := SharedAmong(rs, ms, a, b), SharedAmong(rs, ms + [x], a, b);
    if Entry(x, a) in rs && Entry(x, b) in rs {
      assert after == before + {x};
    } else {
      assert after == before;
    }
  }

  /** `for item1, item2 in combinations(names, 2)` with the counter update
      (app.py:43-50): every unordered pair of the group's distinct names gains
      exactly one, and no other pair changes. */
  method AddCombinations(counts0: map<Pair, nat>, names: seq<string>, ghost within: set<string>)
    returns (counts: map<Pair, nat>)
    requires Distinct(names)
    requires SingleKeyed(counts0) && KeysWithin(counts0, within)
    requires forall c :: c in names ==> c in within
    ensures SingleKeyed(counts) && KeysWithin(counts, within)
    ensures forall a, b :: a != b ==>
      Lookup(counts, a, b) == Lookup(counts0, a, b) + (if a in names && b in names then 1 else 0)
  {
    counts := counts0;
    var i := 0;
    while i < |names|
      invariant 0 <= i <= |names|
      invariant SingleKeyed(counts) && KeysWithin(counts, within)
      invariant forall a, b :: a != b ==>
        Lookup(counts, a, b) == Lookup(counts0, a, b) + (if Enumerated(names, i, i, a, b) then 1 else 0)
    {
      var j := i + 1;
      EnumeratedRowStart(names, i);
      while j < |names|
        invariant i + 1 <= j <= |names|
        invariant SingleKeyed(counts) && KeysWithin(counts, within)
        invariant forall a, b :: a != b ==>
          Lookup(counts, a, b) == Lookup(counts0, a, b) + (if Enumerated(names, i, j, a, b) then 1 else 0)
      {
        var item1, item2 := names[i], names[j];
        if item1 != item2 {
          counts := Increment(counts, item1, item2);
        }
        EnumeratedStep(names, i, j);
        j := j + 1;
      }
      EnumeratedRowEnd(names, i);
      i := i + 1;
    }
    EnumeratedAll(names);
  }

  /** Counts every unordered pair of distinct campaign names per mail group
      (app.py:40-50). Groups are visited in ascending mail order, as `groupby`
      does; the counter ends up holding, for every pair, the number of mails
      that share it. */
  method CountPairs(rs: seq<Entry>) returns (counts: map<Pair, nat>)
    ensures SingleKeyed(counts)
    ensures KeysWithin(counts, Campaigns(rs))
    ensures forall a, b :: Lookup(counts, a, b) == Cell(rs, a, b)
  {
    var mails := SortedDistinct(MailValues(rs));
    SortedIsDistinct(mails);
    counts := map[];
    var g := 0;
    while g < |mails|
      invariant 0 <= g <= |mails|
      invariant SingleKeyed(counts)
      invariant KeysWithin(counts, Campaigns(rs))
      invariant forall a, b :: a != b ==> Lookup(counts, a, b) == |SharedAmong(rs, mails[..g], a, b)|
    {
      var mail := mails[g];
      var names := Unique(GroupCampaigns(rs, mail));
      forall c | c in names
        ensures c in Campaigns(rs)
      {
        assert Entry(mail, c) in rs && Entry(mail, c).campaign == c;
      }
      counts := AddCombinations(counts, names, Campaigns(rs));
      assert mails[..g + 1] == mails[..g] + [mail];
      assert mail !in mails[..g];
      forall a, b | a != b
        ensures Lookup(counts, a, b) == |SharedAmong(rs, mails[..g + 1], a, b)|
      {
        SharedAmongSnoc(rs, mails[..g], mail, a, b);
      }
      g := g + 1;
    }
    assert mails[..g] == mails;
    forall a, b | a != b
      ensures SharedAmong(rs, mails, a, b) == SharingMails(rs, a, b)
    {
      forall m | m in SharingMails(rs, a, b)
        ensures m in mails
      {
        var e :| e in rs && e.mail == m;
        var k :| 0 <= k < |rs| && rs[k] == e;
        assert MailValues(rs)[k] == m;
      }
    }
  }
}
