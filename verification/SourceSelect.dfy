/** Default source address selection (section 5 of RFC 6724). */
module SourceSelect {
  import opened Bytes
  import opened Addresses
  import opened PolicyTable

  datatype Candidate = Candidate(address: Address, prefixLen: nat, tentative: bool, preferredLifetime: nat, temporary: bool)

  /** What the caller prefers; nothing chosen means temporary and short addresses. */
  datatype Preferences = Default | Chosen(publicFirst: bool, shortFirst: bool)
  {
    predicate PublicFirst() {
      Chosen? && publicFirst
    }

    predicate ShortFirst() {
      Default? || shortFirst
    }
  }

  datatype Choice = NoAddress | Picked(index: nat)

  /** What the selection depends on besides the candidates. */
  datatype Query = Query(dest: Address, prefs: Preferences, table: seq<Policy>)

  /** Some entry of the table matches every address. */
  predicate HasDefault(t: seq<Policy>) {
    exists i :: 0 <= i < |t| && t[i].len == 0
  }

  lemma DefaultMatches(t: seq<Policy>, a: Address)
    requires HasDefault(t)
    ensures Find(t, a) < |t|
  {
    var i :| 0 <= i < |t| && t[i].len == 0;
    assert Matches(t[i], a);
  }

  function LabelOf(t: seq<Policy>, a: Address): int {
    if Find(t, a) < |t| then t[Find(t, a)].lbl else -1
  }

  function PrecedenceOf(t: seq<Policy>, a: Address): int {
    if Find(t, a) < |t| then t[Find(t, a)].precedence else -1
  }

  predicate ShortForm(c: Candidate) {
    c.prefixLen == 64 && c.address[8..14] == [0, 0, 0, 0xff, 0xfe, 0]
  }

  function Count(b: bool): nat {
    if b then 1 else 0
  }

  /** An appropriate scope is the smallest that reaches the destination; failing that, the largest. */
  function ScopeRank(scope: nat, destScope: nat): int {
    if scope >= destScope then 1000 - scope else scope
  }

  /** Rules 2, 3, 6, 7 and 8, then the preference for short addresses, then precedence: larger is better, earlier counts more. */
  function Rank(q: Query, c: Candidate): (r: seq<int>)
    requires c.prefixLen <= 128
    ensures |r| == 7
  {
    [ ScopeRank(Scope(c.address), Scope(q.dest)),
      Count(c.preferredLifetime != 0),
      Count(LabelOf(q.table, c.address) == LabelOf(q.table, q.dest)),
      Count(c.temporary != q.prefs.PublicFirst()),
      Common(c.address, c.prefixLen, q.dest),
      Count(ShortForm(c) == q.prefs.ShortFirst()),
      PrecedenceOf(q.table, c.address) ]
  }

  /** Rules 2, 3, 6, 7 and 8 one after the other, each for pairs that those before it leave undecided: SB is preferred to SA. */
  predicate Preferred(q: Query, SA: Candidate, SB: Candidate)
    requires SA.prefixLen <= 128 && SB.prefixLen <= 128
  {
    var a, b, d := Scope(SA.address), Scope(SB.address), Scope(q.dest);
    var labelA, labelB := LabelOf(q.table, SA.address) == LabelOf(q.table, q.dest), LabelOf(q.table, SB.address) == LabelOf(q.table, q.dest);
    var sharedA, sharedB := Common(SA.address, SA.prefixLen, q.dest), Common(SB.address, SB.prefixLen, q.dest);
    if a < b then a < d
    else if b < a then d <= b
    else if (SA.preferredLifetime == 0) != (SB.preferredLifetime == 0) then SA.preferredLifetime == 0
    else if labelA != labelB then labelB
    else if SA.temporary != SB.temporary then (if q.prefs.PublicFirst() then SA.temporary else SB.temporary)
    else if sharedA != sharedB then sharedA < sharedB
    else if ShortForm(SA) != ShortForm(SB) then (if q.prefs.ShortFirst() then ShortForm(SB) else ShortForm(SA))
    else PrecedenceOf(q.table, SA.address) < PrecedenceOf(q.table, SB.address)
  }

  /** The pairwise rules are an order: the lexicographic one of the ranks. */
  lemma {:induction false} RulesAreRanks(q: Query, SA: Candidate, SB: Candidate)
    requires SA.prefixLen <= 128 && SB.prefixLen <= 128
    ensures Preferred(q, SA, SB) <==> Less(Rank(q, SA), Rank(q, SB))
  {
    LessSpelled(Rank(q, SA), Rank(q, SB));
  }

  lemma {:induction false} LessSpelled(a: seq<int>, b: seq<int>)
    requires |a| == 7 == |b|
    ensures Less(a, b) <==> if a[0] != b[0] then a[0] < b[0] else if a[1] != b[1] then a[1] < b[1] else if a[2] != b[2] then a[2] < b[2]
                            else if a[3] != b[3] then a[3] < b[3] else if a[4] != b[4] then a[4] < b[4] else if a[5] != b[5] then a[5] < b[5]
                            else a[6] < b[6]
  {
    LessFrom(a, b, 0);
    LessFrom(a, b, 1);
    LessFrom(a, b, 2);
    LessFrom(a, b, 3);
    LessFrom(a, b, 4);
    LessFrom(a, b, 5);
    LessFrom(a, b, 6);
    assert a[0..] == a && b[0..] == b;
  }

  lemma LessFrom(a: seq<int>, b: seq<int>, k: nat)
    requires k < |a| == |b|
    ensures Less(a[k..], b[k..]) <==> a[k] < b[k] || (a[k] == b[k] && k + 1 < |a| && Less(a[k + 1..], b[k + 1..]))
  {
    assert a[k..][1..] == a[k + 1..] && b[k..][1..] == b[k + 1..];
  }

  /** Lexicographic order. */
  predicate Less(a: seq<int>, b: seq<int>)
    requires |a| == |b|
  {
    a != [] && (a[0] < b[0] || (a[0] == b[0] && Less(a[1..], b[1..])))
  }

  lemma {:induction false} LessTransitive(a: seq<int>, b: seq<int>, c: seq<int>)
    requires |a| == |b| == |c|
    ensures Less(a, b) && Less(b, c) ==> Less(a, c)
    ensures !Less(b, a) && Less(b, c) ==> Less(a, c)
    ensures !Less(b, a) && !Less(c, b) ==> !Less(c, a)
  {
    if a != [] {
      LessTransitive(a[1..], b[1..], c[1..]);
    }
  }

  lemma {:induction false} LessSteps(a: seq<int>, b: seq<int>, k: nat)
    requires |a| == |b| && k < |a| && a[..k] == b[..k]
    ensures a[k] < b[k] ==> Less(a, b) && !Less(b, a)
    ensures a[k] > b[k] ==> !Less(a, b)
  {
    if k > 0 {
      assert a[0] == a[..k][0] == b[..k][0] == b[0];
      assert a[1..][..k - 1] == a[..k][1..] && b[1..][..k - 1] == b[..k][1..];
      LessSteps(a[1..], b[1..], k - 1);
    }
  }

  lemma PrefixOn(a: seq<int>, b: seq<int>, k: nat)
    requires |a| == |b| && k < |a| && a[..k] == b[..k] && a[k] == b[k]
    ensures a[..k + 1] == b[..k + 1]
  {
    assert a[..k + 1] == a[..k] + [a[k]] && b[..k + 1] == b[..k] + [b[k]];
  }

  lemma {:induction false} LessLast(a: seq<int>, b: seq<int>, k: nat)
    requires |a| == |b| == k + 1 && a[..k] == b[..k]
    ensures Less(a, b) <==> a[k] < b[k]
  {
    LessSteps(a, b, k);
    if a[k] == b[k] {
      assert a == a[..k] + [a[k]] && b == b[..k] + [b[k]];
      LessIrreflexive(a);
    }
  }

  lemma {:induction false} LessIrreflexive(a: seq<int>)
    ensures !Less(a, a)
  {
    if a != [] {
      LessIrreflexive(a[1..]);
    }
  }

  /** The pairwise rules: whether the new candidate SB replaces SA. */
  method PrefersNew(table: Table, ghost q: Query, dest: Address, prefs: Preferences, SA: Candidate, SB: Candidate) returns (b: bool)
    requires table.Valid() && HasDefault(table.entries) && q == Query(dest, prefs, table.entries)
    requires SA.prefixLen <= 128 && SB.prefixLen <= 128
    ensures b <==> Less(Rank(q, SA), Rank(q, SB))
  {
    ghost var ra, rb := Rank(q, SA), Rank(q, SB);
    var decided;
    decided, b := ScopeAndLifetime(SA, SB, dest);
    if decided {
      DecidedEarly(q, SA, SB, b);
      return;
    }
    assert ra[..2] == rb[..2];
    decided, b := LabelAndKind(table, q, dest, prefs, SA, SB);
    if decided {
      return;
    }
    b := LastRules(table, q, dest, prefs, SA, SB);
  }

  /** Rules 2 and 3. */
  method ScopeAndLifetime(SA: Candidate, SB: Candidate, dest: Address) returns (decided: bool, b: bool)
    ensures var sa, sb := ScopeRank(Scope(SA.address), Scope(dest)), ScopeRank(Scope(SB.address), Scope(dest));
            var la, lb := Count(SA.preferredLifetime != 0), Count(SB.preferredLifetime != 0);
            && (decided <==> sa != sb || la != lb)
            && (decided ==> (b <==> sa < sb || (sa == sb && la < lb)))
  {
    var scopeA, scopeB, scopeD := Scope(SA.address), Scope(SB.address), Scope(dest);
    if scopeA < scopeB {
      return true, scopeA < scopeD;
    } else if scopeB < scopeA {
      return true, !(scopeB < scopeD);
    }
    if SA.preferredLifetime != 0 && SB.preferredLifetime == 0 {
      return true, false;
    } else if SB.preferredLifetime != 0 && SA.preferredLifetime == 0 {
      return true, true;
    }
    return false, false;
  }

  lemma {:induction false} DecidedEarly(q: Query, SA: Candidate, SB: Candidate, b: bool)
    requires SA.prefixLen <= 128 && SB.prefixLen <= 128
    requires var ra, rb := Rank(q, SA), Rank(q, SB);
             (ra[0] != rb[0] || ra[1] != rb[1]) && (b <==> ra[0] < rb[0] || (ra[0] == rb[0] && ra[1] < rb[1]))
    ensures b <==> Less(Rank(q, SA), Rank(q, SB))
  {
    var ra, rb := Rank(q, SA), Rank(q, SB);
    if ra[0] != rb[0] {
      LessSteps(ra, rb, 0);
    } else {
      assert ra[..1] == rb[..1];
      LessSteps(ra, rb, 1);
    }
  }

  /** Rules 6 and 7. */
  method LabelAndKind(table: Table, ghost q: Query, dest: Address, prefs: Preferences, SA: Candidate, SB: Candidate)
      returns (decided: bool, b: bool)
    requires table.Valid() && HasDefault(table.entries) && q == Query(dest, prefs, table.entries)
    requires SA.prefixLen <= 128 && SB.prefixLen <= 128 && Rank(q, SA)[..2] == Rank(q, SB)[..2]
    ensures decided ==> (b <==> Less(Rank(q, SA), Rank(q, SB)))
    ensures !decided ==> Rank(q, SA)[..4] == Rank(q, SB)[..4]
  {
    ghost var ra, rb := Rank(q, SA), Rank(q, SB);
    var a := Lookup(table, SA.address);
    var c := Lookup(table, SB.address);
    var d := Lookup(table, dest);
    LessSteps(ra, rb, 2);
    if a.lbl == d.lbl && c.lbl != d.lbl {
      return true, false;
    } else if c.lbl == d.lbl && a.lbl != d.lbl {
      return true, true;
    }
    PrefixOn(ra, rb, 2);
    LessSteps(ra, rb, 3);
    if SA.temporary != SB.temporary {
      return true, !(SA.temporary != prefs.PublicFirst());
    }
    PrefixOn(ra, rb, 3);
    return false, false;
  }

  /** Rule 8 and the tie-breakers. */
  method LastRules(table: Table, ghost q: Query, dest: Address, prefs: Preferences, SA: Candidate, SB: Candidate) returns (b: bool)
    requires table.Valid() && HasDefault(table.entries) && q == Query(dest, prefs, table.entries)
    requires SA.prefixLen <= 128 && SB.prefixLen <= 128 && Rank(q, SA)[..4] == Rank(q, SB)[..4]
    ensures b <==> Less(Rank(q, SA), Rank(q, SB))
  {
    ghost var ra, rb := Rank(q, SA), Rank(q, SB);
    var commonA := Shared(q, dest, SA);
    var commonB := Shared(q, dest, SB);
    LessSteps(ra, rb, 4);
    if commonA > commonB {
      return false;
    } else if commonB > commonA {
      return true;
    }
    PrefixOn(ra, rb, 4);
    b := TieBreakers(table, q, prefs, SA, SB);
  }

  method Shared(ghost q: Query, dest: Address, c: Candidate) returns (n: nat)
    requires c.prefixLen <= 128 && q.dest == dest
    ensures n == Rank(q, c)[4]
  {
    n := CommonPrefixLen(c.address, c.prefixLen, dest);
  }

  /** Short addresses, then precedence. */
  method TieBreakers(table: Table, ghost q: Query, prefs: Preferences, SA: Candidate, SB: Candidate) returns (b: bool)
    requires table.Valid() && HasDefault(table.entries) && q.table == table.entries && q.prefs == prefs
    requires SA.prefixLen <= 128 && SB.prefixLen <= 128 && Rank(q, SA)[..5] == Rank(q, SB)[..5]
    ensures b <==> Less(Rank(q, SA), Rank(q, SB))
  {
    ghost var ra, rb := Rank(q, SA), Rank(q, SB);
    LessSteps(ra, rb, 5);
    if ShortForm(SA) != ShortForm(SB) {
      return !(ShortForm(SA) == prefs.ShortFirst());
    }
    PrefixOn(ra, rb, 5);
    b := Precedes(table, q, SA, SB);
  }

  method Precedes(table: Table, ghost q: Query, SA: Candidate, SB: Candidate) returns (b: bool)
    requires table.Valid() && HasDefault(table.entries) && q.table == table.entries
    requires SA.prefixLen <= 128 && SB.prefixLen <= 128 && Rank(q, SA)[..6] == Rank(q, SB)[..6]
    ensures b <==> Less(Rank(q, SA), Rank(q, SB))
  {
    LessLast(Rank(q, SA), Rank(q, SB), 6);
    var a := Lookup(table, SA.address);
    var c := Lookup(table, SB.address);
    if a.precedence > c.precedence {
      return false;
    } else if c.precedence > a.precedence {
      return true;
    }
    return false;
  }

  method Lookup(table: Table, a: Address) returns (e: Policy)
    requires table.Valid() && HasDefault(table.entries)
    ensures e.lbl == LabelOf(table.entries, a) && e.precedence == PrecedenceOf(table.entries, a)
  {
    DefaultMatches(table.entries, a);
    var i := table.GetPolicy(a);
    e := table.entries[i];
  }

  predicate Usable(cs: seq<Candidate>, i: nat)
    requires i < |cs|
  {
    !cs[i].tentative && cs[i].prefixLen <= 128
  }

  ghost predicate WellFormed(cs: seq<Candidate>) {
    forall i :: 0 <= i < |cs| ==> cs[i].prefixLen <= 128
  }

  /** The ranks of all candidates. */
  ghost function Ranks(q: Query, cs: seq<Candidate>): (rs: seq<seq<int>>)
    requires WellFormed(cs)
    ensures |rs| == |cs| && forall i :: 0 <= i < |cs| ==> rs[i] == Rank(q, cs[i])
  {
    seq(|cs|, i requires 0 <= i < |cs| => Rank(q, cs[i]))
  }

  /** Usable candidate i is not beaten by usable candidate j, and beats it if j comes first. */
  predicate NotBeatenBy(rs: seq<seq<int>>, cs: seq<Candidate>, i: nat, j: nat)
    requires i < |cs| == |rs| && j < |cs| && |rs[i]| == |rs[j]|
  {
    Usable(cs, j) ==> !Less(rs[i], rs[j]) && (j < i ==> Less(rs[j], rs[i]))
  }

  predicate Even(rs: seq<seq<int>>) {
    forall i :: 0 <= i < |rs| ==> |rs[i]| == 7
  }

  /** Candidate i is the first of the best among the first n. */
  ghost predicate FirstBest(rs: seq<seq<int>>, cs: seq<Candidate>, n: nat, i: nat)
    requires n <= |cs| == |rs| && Even(rs)
  {
    i < n && Usable(cs, i) && forall j :: 0 <= j < n ==> NotBeatenBy(rs, cs, i, j)
  }

  /** Position i is the first that is not tentative. */
  predicate FirstUsable(cs: seq<Candidate>, i: nat) {
    i < |cs| && Usable(cs, i) && forall j :: 0 <= j < i ==> !Usable(cs, j)
  }

  /** Position i holds the destination itself and is not the first that is not tentative. */
  predicate OwnLater(dest: Address, cs: seq<Candidate>, i: nat)
    requires i < |cs|
  {
    Usable(cs, i) && cs[i].address == dest && exists j :: 0 <= j < i && Usable(cs, j)
  }

  /** What the selection returns, given the ranks: the first address that is the destination, unless only the very first is;
      otherwise the first of the best. */
  ghost predicate Selected(dest: Address, rs: seq<seq<int>>, cs: seq<Candidate>, r: Choice)
    requires |rs| == |cs| && Even(rs)
  {
    match r
    case NoAddress => forall j :: 0 <= j < |cs| ==> !Usable(cs, j)
    case Picked(i) =>
      i < |cs| && Usable(cs, i) &&
      if OwnLater(dest, cs, i) then forall j :: 0 <= j < i ==> !OwnLater(dest, cs, j)
      else FirstBest(rs, cs, |cs|, i) && forall j :: 0 <= j < |cs| ==> !OwnLater(dest, cs, j)
  }

  /** A newcomer that beats the best so far is the best; one that does not leaves it. */
  lemma {:induction false} FirstBestNext(rs: seq<seq<int>>, cs: seq<Candidate>, n: nat, i: nat)
    requires n < |cs| == |rs| && Even(rs) && FirstBest(rs, cs, n, i)
    ensures Usable(cs, n) && Less(rs[i], rs[n]) ==> FirstBest(rs, cs, n + 1, n)
    ensures !Usable(cs, n) || !Less(rs[i], rs[n]) ==> FirstBest(rs, cs, n + 1, i)
  {
    if Usable(cs, n) && Less(rs[i], rs[n]) {
      forall j | 0 <= j < n + 1 ensures NotBeatenBy(rs, cs, n, j) {
        LessIrreflexive(rs[n]);
        if j < n && Usable(cs, j) {
          assert NotBeatenBy(rs, cs, i, j);
          LessTransitive(rs[j], rs[i], rs[n]);
          LessTransitive(rs[n], rs[j], rs[n]);
        }
      }
    } else {
      forall j | 0 <= j < n + 1 ensures NotBeatenBy(rs, cs, i, j) {
        assert j < n ==> NotBeatenBy(rs, cs, i, j);
      }
    }
  }

  /** The best so far, no own address having been seen after the first. */
  ghost predicate Leading(dest: Address, rs: seq<seq<int>>, cs: seq<Candidate>, n: nat, r: Choice)
    requires n <= |cs| == |rs| && Even(rs)
  {
    && (forall j :: 0 <= j < n ==> !OwnLater(dest, cs, j))
    && match r
       case NoAddress => forall j :: 0 <= j < n ==> !Usable(cs, j)
       case Picked(i) => FirstBest(rs, cs, n, i)
  }

  lemma {:induction false} LeadingNext(dest: Address, rs: seq<seq<int>>, cs: seq<Candidate>, n: nat, i: nat, better: bool)
    requires n < |cs| == |rs| && Even(rs) && Leading(dest, rs, cs, n, Picked(i)) && (Usable(cs, n) ==> cs[n].address != dest)
    requires i < |cs| && (better <==> Usable(cs, n) && Less(rs[i], rs[n]))
    ensures Leading(dest, rs, cs, n + 1, if better then Picked(n) else Picked(i))
  {
    FirstBestNext(rs, cs, n, i);
  }

  lemma {:induction false} LeadingFirst(dest: Address, rs: seq<seq<int>>, cs: seq<Candidate>, n: nat)
    requires n < |cs| == |rs| && Even(rs) && Leading(dest, rs, cs, n, NoAddress)
    ensures Leading(dest, rs, cs, n + 1, if Usable(cs, n) then Picked(n) else NoAddress)
  {
    if Usable(cs, n) {
      OnlyOne(dest, rs, cs, n);
    }
  }

  lemma {:induction false} OwnFound(dest: Address, rs: seq<seq<int>>, cs: seq<Candidate>, n: nat, i: nat)
    requires n < |cs| == |rs| && Even(rs) && Leading(dest, rs, cs, n, Picked(i)) && Usable(cs, n) && cs[n].address == dest
    ensures Selected(dest, rs, cs, Picked(n))
  {
    assert OwnLater(dest, cs, n);
  }

  /** addr_select_source. */
  method Select(table: Table, cs: seq<Candidate>, dest: Address, prefs: Preferences) returns (r: Choice)
    requires table.Valid() && HasDefault(table.entries) && WellFormed(cs)
    ensures Selected(dest, Ranks(Query(dest, prefs, table.entries), cs), cs, r)
  {
    r := NoAddress;
    ghost var q := Query(dest, prefs, table.entries);
    ghost var rs := Ranks(q, cs);
    for n := 0 to |cs|
      invariant Leading(dest, rs, cs, n, r)
    {
      if cs[n].tentative {
        if r.Picked? { LeadingNext(dest, rs, cs, n, r.index, false); } else { LeadingFirst(dest, rs, cs, n); }
        continue;
      }
      if r.NoAddress? {
        LeadingFirst(dest, rs, cs, n);
        r := Picked(n);
        continue;
      }
      if cs[n].address == dest {
        OwnFound(dest, rs, cs, n, r.index);
        return Picked(n);
      }
      var better := PrefersNew(table, q, dest, prefs, cs[r.index], cs[n]);
      LeadingNext(dest, rs, cs, n, r.index, better);
      if better {
        r := Picked(n);
      }
    }
  }

  lemma {:induction false} OnlyOne(dest: Address, rs: seq<seq<int>>, cs: seq<Candidate>, n: nat)
    requires n < |cs| == |rs| && Even(rs) && Usable(cs, n) && forall j :: 0 <= j < n ==> !Usable(cs, j)
    ensures FirstBest(rs, cs, n + 1, n) && !OwnLater(dest, cs, n)
  {
    LessIrreflexive(rs[n]);
    forall j | 0 <= j < n + 1 ensures NotBeatenBy(rs, cs, n, j) {
      assert j < n ==> !Usable(cs, j);
    }
  }

  /** When the destination is not one of the interface's own addresses, the rules prefer no other address to the choice, and the choice
      to every earlier one. */
  lemma {:induction false} SelectedIsBest(q: Query, cs: seq<Candidate>, r: Choice, j: nat)
    requires WellFormed(cs) && Selected(q.dest, Ranks(q, cs), cs, r) && j < |cs| && Usable(cs, j)
    requires forall i :: 0 <= i < |cs| && Usable(cs, i) ==> cs[i].address != q.dest
    ensures r.Picked? && r.index < |cs| && Usable(cs, r.index) && !Preferred(q, cs[r.index], cs[j])
    ensures j < r.index ==> Preferred(q, cs[j], cs[r.index])
  {
    RulesAreRanks(q, cs[r.index], cs[j]);
    RulesAreRanks(q, cs[j], cs[r.index]);
    assert NotBeatenBy(Ranks(q, cs), cs, r.index, j);
  }

  /** Rule 1 holds of the choice exactly when the destination is not only first in the list, or nothing there outranks it; rs are the
      ranks of the candidates. */
  lemma {:induction false} OwnAddress(dest: Address, rs: seq<seq<int>>, cs: seq<Candidate>, r: Choice, own: nat, first: nat)
    requires |rs| == |cs| && Even(rs) && Selected(dest, rs, cs, r)
    requires own < |cs| && Usable(cs, own) && cs[own].address == dest && FirstUsable(cs, first)
    ensures r.Picked? && r.index < |cs|
    ensures cs[r.index].address == dest <==>
              || (exists i :: first < i < |cs| && Usable(cs, i) && cs[i].address == dest)
              || (forall j :: 0 <= j < |cs| && Usable(cs, j) ==> !Less(rs[first], rs[j]))
  {
    assert first <= own;
    if exists i :: first < i < |cs| && Usable(cs, i) && cs[i].address == dest {
      var i :| first < i < |cs| && Usable(cs, i) && cs[i].address == dest;
      assert OwnLater(dest, cs, i);
    } else {
      assert own == first;
      assert !OwnLater(dest, cs, r.index);
      assert cs[r.index].address == dest <==> r.index == first;
      assert NotBeatenBy(rs, cs, r.index, first);
      if r.index == first {
        forall j | 0 <= j < |cs| && Usable(cs, j) ensures !Less(rs[first], rs[j]) {
          assert NotBeatenBy(rs, cs, first, j);
        }
      }
    }
  }

  /** An own address that is first in the list and deprecated loses to another of the same scope: the choice is the other one. */
  lemma OwnAddressCanLose(q: Query, other: Address, r: Choice)
    requires q.dest[0] == 0x20 && other[0] == 0x20 && other != q.dest
    ensures Selected(q.dest, Ranks(q, Deprecated(q.dest, other)), Deprecated(q.dest, other), r) ==> r == Picked(1)
  {
    var cs := Deprecated(q.dest, other);
    var rs := Ranks(q, cs);
    OutrankedByOther(q, other);
    if Selected(q.dest, rs, cs, r) {
      assert FirstUsable(cs, 0) && Usable(cs, 1) && Less(rs[0], rs[1]);
      OwnAddress(q.dest, rs, cs, r, 0, 0);
    }
  }

  function Deprecated(dest: Address, other: Address): (cs: seq<Candidate>)
    ensures WellFormed(cs)
  {
    [Candidate(dest, 64, false, 0, false), Candidate(other, 64, false, 1, false)]
  }

  lemma OutrankedByOther(q: Query, other: Address)
    requires q.dest[0] == 0x20 && other[0] == 0x20 && other != q.dest
    ensures var cs := Deprecated(q.dest, other); Less(Rank(q, cs[0]), Rank(q, cs[1]))
  {
    var cs := Deprecated(q.dest, other);
    var a, b := Rank(q, cs[0]), Rank(q, cs[1]);
    NotLocal(q.dest);
    NotLocal(other);
    assert a[..1] == b[..1];
    LessSteps(a, b, 1);
  }

  lemma NotLocal(a: Address)
    requires a[0] == 0x20
    ensures Scope(a) == GLOBAL
  {
    assert Loopback()[0] == 0 && Mapped()[0] == 0;
    assert a[..12][0] == a[0];
  }
}
