/** Stable tokens for windows, as the KWin helper hands them out. */
module KWinTokens {
  import opened Wrappers
  import opened Json

  /** A window's QUuid, in its textual form. */
  type WindowId = string
  type Token = U64

  /** One entry of the window manager's list; an entry may be null. */
  datatype Window = NullWindow | Window(id: WindowId, isClient: bool, isDeleted: bool)

  predicate Live(w: Window) {
    w.Window? && w.isClient && !w.isDeleted
  }

  /** The live windows' identities, in list order. */
  function LiveIds(windows: seq<Window>): seq<WindowId> {
    if windows == [] then []
    else
      var last := windows[|windows| - 1];
      LiveIds(windows[..|windows| - 1]) + if Live(last) then [last.id] else []
  }

  function LiveSet(windows: seq<Window>): set<WindowId> {
    set id | id in LiveIds(windows)
  }

  datatype Record = Record(id: WindowId, token: Token)

  /** The token issued after `count` others: the counter starts at 1 and is 64 bits wide. */
  function NthToken(count: nat): Token {
    (count + 1) % TWO_TO_THE_64
  }

  /** Every window that was ever given a token, in order of issue, and the issue that each
      window in the table holds. */
  datatype Ledger = Ledger(owners: seq<WindowId>, holds: map<WindowId, nat>) {
    ghost predicate Valid() {
      forall id :: id in holds ==> holds[id] < |owners| && owners[holds[id]] == id
    }

    function TokenOf(id: WindowId): Token
      requires id in holds
    {
      NthToken(holds[id])
    }
  }

  function Restrict(holds: map<WindowId, nat>, live: set<WindowId>): map<WindowId, nat> {
    map id | id in holds && id in live :: holds[id]
  }

  /** The ledger once the entries of windows that are gone are erased. */
  function Kept(ledger: Ledger, live: set<WindowId>): Ledger {
    Ledger(ledger.owners, Restrict(ledger.holds, live))
  }

  /** No token was issued in vain: whoever got one since `before` holds it. */
  ghost predicate AllHeld(before: Ledger, after: Ledger) {
    forall k :: |before.owners| <= k < |after.owners| ==>
      after.owners[k] in after.holds && after.holds[after.owners[k]] == k
  }

  /** One snapshot: exactly the live windows hold a token, the known ones the token they
      had, the others one that was issued to them just now. */
  ghost predicate Refreshed(before: Ledger, live: set<WindowId>, after: Ledger) {
    && after.Valid()
    && before.owners <= after.owners
    && after.holds.Keys == live
    && (forall id :: id in live && id in before.holds ==> after.holds[id] == before.holds[id])
    && (forall id :: id in live && id !in before.holds ==> |before.owners| <= after.holds[id])
    && AllHeld(before, after)
  }

  /** One record for each listed window, in order, with the token the window holds. */
  ghost predicate Listed(ledger: Ledger, records: seq<Record>, ids: seq<WindowId>) {
    && |records| == |ids|
    && forall i :: 0 <= i < |ids| ==>
         ids[i] in ledger.holds && records[i] == Record(ids[i], ledger.TokenOf(ids[i]))
  }

  class TargetApi {
    var tokens: map<WindowId, Token>
    var nextToken: Token
    ghost var ledger: Ledger

    ghost predicate Valid()
      reads this
    {
      && ledger.Valid()
      && nextToken == NthToken(|ledger.owners|)
      && tokens.Keys == ledger.holds.Keys
      && forall id :: id in tokens ==> tokens[id] == ledger.TokenOf(id)
    }

    constructor ()
      ensures Valid() && ledger == Ledger([], map[])
    {
      tokens, nextToken := map[], 1;
      ledger := Ledger([], map[]);
    }

    method GetWindows(liveWindows: seq<Window>) returns (records: seq<Record>)
      requires Valid()
      modifies this
      ensures Valid()
      ensures Refreshed(old(ledger), LiveSet(liveWindows), ledger)
      ensures ledger == IssueAll(Kept(old(ledger), LiveSet(liveWindows)), LiveIds(liveWindows))
      ensures Listed(ledger, records, LiveIds(liveWindows))
    {
      var liveIds := CollectLive(liveWindows);
      EraseAllBut(liveIds);
      assert Filling(old(ledger), ledger, liveIds, {});
      records := ListWindows(liveWindows, liveIds, old(ledger));
    }

    /** The loop that collects the identities of the live windows. */
    static method CollectLive(liveWindows: seq<Window>) returns (liveIds: set<WindowId>)
      ensures liveIds == LiveSet(liveWindows)
    {
      liveIds := {};
      for i := 0 to |liveWindows|
        invariant liveIds == LiveSet(liveWindows[..i])
      {
        LiveIdsStep(liveWindows, i);
        if Live(liveWindows[i]) {
          liveIds := liveIds + {liveWindows[i].id};
        }
      }
      assert liveWindows[..|liveWindows|] == liveWindows;
    }

    /** The loop that lists the live windows, issuing tokens as it goes. */
    method ListWindows(liveWindows: seq<Window>, ghost liveIds: set<WindowId>, ghost before: Ledger)
      returns (records: seq<Record>)
      requires Valid() && liveIds == LiveSet(liveWindows)
      requires Filling(before, ledger, liveIds, {})
      modifies this
      ensures Valid() && Filling(before, ledger, liveIds, liveIds)
      ensures ledger == IssueAll(old(ledger), LiveIds(liveWindows))
      ensures Listed(ledger, records, LiveIds(liveWindows))
    {
      records := [];
      for i := 0 to |liveWindows|
        invariant Valid()
        invariant ledger == IssueAll(old(ledger), LiveIds(liveWindows[..i]))
        invariant Listed(ledger, records, LiveIds(liveWindows[..i]))
        invariant Filling(before, ledger, liveIds, LiveSet(liveWindows[..i]))
      {
        LiveIdsStep(liveWindows, i);
        if Live(liveWindows[i]) {
          LiveIdsOfPrefix(liveWindows, i);
          ghost var now, ids := ledger, LiveIds(liveWindows[..i]);
          var id := liveWindows[i].id;
          var token := TokenFor(id);
          ListOne(now, records, ids, id);
          FillOne(before, now, liveIds, LiveSet(liveWindows[..i]), id, ledger);
          IssueOneMore(old(ledger), ids, id);
          records := records + [Record(id, token)];
        }
      }
      assert liveWindows[..|liveWindows|] == liveWindows;
    }

    /** The loop that erases the entries of windows that are gone. */
    method EraseAllBut(live: set<WindowId>)
      requires Valid()
      modifies this
      ensures Valid()
      ensures ledger == Kept(old(ledger), live)
    {
      var remaining := tokens.Keys;
      while remaining != {}
        invariant remaining <= old(tokens).Keys
        invariant nextToken == old(nextToken) && ledger == old(ledger)
        invariant forall id :: id in tokens <==> id in old(tokens) && (id in live || id in remaining)
        invariant forall id :: id in tokens ==> tokens[id] == old(tokens)[id]
        decreases remaining
      {
        var id :| id in remaining;
        remaining := remaining - {id};
        if id !in live {
          tokens := tokens - {id};
        }
      }
      ledger := Kept(ledger, live);
    }

    method TokenFor(id: WindowId) returns (token: Token)
      requires Valid()
      modifies this
      ensures Valid()
      ensures id in ledger.holds && token == ledger.TokenOf(id)
      ensures ledger == Issue(old(ledger), id)
    {
      if id in tokens {
        return tokens[id];
      }
      token := nextToken;
      nextToken := (nextToken + 1) % TWO_TO_THE_64;
      tokens := tokens[id := token];
      ledger := Issue(ledger, id);
      assert ledger.holds == old(ledger).holds[id := |old(ledger).owners|];
      assert ledger.owners == old(ledger).owners + [id];
    }
  }

  /** Between erasing and the end of the listing: the windows listed so far hold a token. */
  ghost predicate Filling(before: Ledger, now: Ledger, live: set<WindowId>, listed: set<WindowId>) {
    && listed <= live
    && before.owners <= now.owners
    && now.holds.Keys == (before.holds.Keys * live) + listed
    && (forall id :: id in now.holds && id in before.holds ==> now.holds[id] == before.holds[id])
    && (forall id :: id in now.holds && id !in before.holds ==> |before.owners| <= now.holds[id])
    && AllHeld(before, now)
  }

  /** The ledger after `id` asks for its token. */
  function Issue(ledger: Ledger, id: WindowId): Ledger {
    if id in ledger.holds then ledger
    else Ledger(ledger.owners + [id], ledger.holds[id := |ledger.owners|])
  }

  /** The windows ask one after the other. */
  function IssueAll(ledger: Ledger, ids: seq<WindowId>): Ledger {
    if ids == [] then ledger else Issue(IssueAll(ledger, ids[..|ids| - 1]), ids[|ids| - 1])
  }

  lemma IssueOneMore(ledger: Ledger, ids: seq<WindowId>, id: WindowId)
    ensures IssueAll(ledger, ids + [id]) == Issue(IssueAll(ledger, ids), id)
  {
    assert (ids + [id])[..|ids|] == ids;
  }

  lemma {:induction false} IssueAllKeeps(ledger: Ledger, ids: seq<WindowId>, k: nat)
    requires k <= |ids| && forall id :: id in ledger.holds ==> ledger.holds[id] < |ledger.owners|
    ensures var front, all := IssueAll(ledger, ids[..k]), IssueAll(ledger, ids);
            && |front.owners| <= |all.owners|
            && (forall id :: id in front.holds ==> id in all.holds && all.holds[id] == front.holds[id])
            && (forall id :: id in all.holds ==> all.holds[id] < |all.owners|)
            && (forall id :: id in all.holds && id !in front.holds ==> |front.owners| <= all.holds[id])
            && (forall id :: id in ids[..k] ==> id in front.holds)
            && (forall id :: id in front.holds ==> id in ledger.holds || id in ids[..k])
    decreases |ids|, k
  {
    if k < |ids| {
      assert ids[..|ids| - 1][..k] == ids[..k];
      IssueAllKeeps(ledger, ids[..|ids| - 1], k);
    } else {
      assert ids[..k] == ids;
      if k > 0 {
        IssueAllKeeps(ledger, ids[..k - 1], k - 1);
        assert ids[..k - 1][..k - 1] == ids[..k - 1] && ids == ids[..k - 1] + [ids[k - 1]];
      }
    }
  }

  /** New windows get their tokens in list order: of two that had none, the one that comes first
      in the list gets the earlier one. */
  lemma IssuedInListOrder(ledger: Ledger, ids: seq<WindowId>, i: nat, j: nat)
    requires ledger.Valid() && i < j < |ids|
    requires ids[i] !in ledger.holds && ids[j] !in ledger.holds && ids[j] !in ids[..j]
    ensures var all := IssueAll(ledger, ids).holds;
            ids[i] in all && ids[j] in all && |ledger.owners| <= all[ids[i]] < all[ids[j]]
  {
    IssueAllKeeps(ledger, ids, 0);
    assert ids[..0] == [];
    IssueAllKeeps(ledger, ids[..j], j);
    assert ids[..j][..j] == ids[..j] && ids[i] in ids[..j];
    IssueAllKeeps(ledger, ids, j);
    IssueAllKeeps(ledger, ids, |ids|);
    assert ids[..|ids|] == ids && ids[j] in ids;
  }

  lemma FillOne(before: Ledger, now: Ledger, live: set<WindowId>, listed: set<WindowId>, id: WindowId, after: Ledger)
    requires Filling(before, now, live, listed) && id in live && after == Issue(now, id)
    ensures Filling(before, after, live, listed + {id})
  {
    var more := listed + {id};
    assert after.holds.Keys == (before.holds.Keys * live) + more;
  }

  lemma LiveIdsStep(windows: seq<Window>, i: nat)
    requires i < |windows|
    ensures Live(windows[i]) ==>
              && LiveIds(windows[..i + 1]) == LiveIds(windows[..i]) + [windows[i].id]
              && LiveSet(windows[..i + 1]) == LiveSet(windows[..i]) + {windows[i].id}
    ensures !Live(windows[i]) ==> LiveIds(windows[..i + 1]) == LiveIds(windows[..i])
  {
    assert windows[..i + 1][..i] == windows[..i];
  }

  lemma ListOne(now: Ledger, records: seq<Record>, ids: seq<WindowId>, id: WindowId)
    requires Listed(now, records, ids)
    ensures id in Issue(now, id).holds
    ensures Listed(Issue(now, id), records + [Record(id, Issue(now, id).TokenOf(id))], ids + [id])
  {
  }

  lemma {:induction false} LiveIdsOfPrefix(windows: seq<Window>, i: nat)
    requires i < |windows| && Live(windows[i])
    ensures windows[i].id in LiveIds(windows)
  {
    if i < |windows| - 1 {
      LiveIdsOfPrefix(windows[..|windows| - 1], i);
    }
  }

  // Whole runs

  /** A run of snapshots: `ledgers[i + 1]` is what the call on `lives[i]` leaves behind. */
  ghost predicate Run(ledgers: seq<Ledger>, lives: seq<set<WindowId>>) {
    && |ledgers| == |lives| + 1
    && ledgers[0] == Ledger([], map[])
    && forall i :: 0 <= i < |lives| ==> Refreshed(ledgers[i], lives[i], ledgers[i + 1])
  }

  lemma {:induction false} OwnersGrow(ledgers: seq<Ledger>, lives: seq<set<WindowId>>, i: nat, j: nat)
    requires Run(ledgers, lives) && i <= j < |ledgers|
    ensures ledgers[i].owners <= ledgers[j].owners
    ensures ledgers[j].Valid()
    decreases j
  {
    if j > 0 {
      assert Refreshed(ledgers[j - 1], lives[j - 1], ledgers[j]);
    }
    if i < j {
      OwnersGrow(ledgers, lives, i, j - 1);
    }
  }

  lemma TokensDiffer(first: nat, second: nat)
    requires first < TWO_TO_THE_64 && second < TWO_TO_THE_64
    ensures NthToken(first) == NthToken(second) <==> first == second
  {
  }

  /** Over a whole run a token never denotes two different windows. */
  lemma TokensIdentify(ledgers: seq<Ledger>, lives: seq<set<WindowId>>, i: nat, a: WindowId, j: nat, b: WindowId)
    requires Run(ledgers, lives) && i <= j < |ledgers|
    requires |ledgers[j].owners| <= TWO_TO_THE_64
    requires a in ledgers[i].holds && b in ledgers[j].holds
    requires ledgers[i].TokenOf(a) == ledgers[j].TokenOf(b)
    ensures a == b
  {
    OwnersGrow(ledgers, lives, i, i);
    OwnersGrow(ledgers, lives, i, j);
    TokensDiffer(ledgers[i].holds[a], ledgers[j].holds[b]);
  }

  /** A window that stays live keeps its token from call to call. */
  lemma {:induction false} LiveWindowKeepsToken(
      ledgers: seq<Ledger>, lives: seq<set<WindowId>>, i: nat, j: nat, id: WindowId)
    requires Run(ledgers, lives) && 0 < i <= j < |ledgers|
    requires forall k :: i - 1 <= k < j ==> id in lives[k]
    ensures id in ledgers[i].holds && id in ledgers[j].holds
    ensures ledgers[j].TokenOf(id) == ledgers[i].TokenOf(id)
    decreases j
  {
    assert Refreshed(ledgers[i - 1], lives[i - 1], ledgers[i]);
    if i < j {
      LiveWindowKeepsToken(ledgers, lives, i, j - 1, id);
      assert Refreshed(ledgers[j - 1], lives[j - 1], ledgers[j]);
    }
  }

  /** A window that is missing from one snapshot comes back with a token that nobody,
      itself included, ever had before. */
  lemma ReturningWindowGetsFreshToken(
      ledgers: seq<Ledger>, lives: seq<set<WindowId>>, i: nat, k: nat, a: WindowId, id: WindowId)
    requires Run(ledgers, lives) && i <= k < |lives|
    requires |ledgers[k + 1].owners| <= TWO_TO_THE_64
    requires id !in ledgers[k].holds && id in lives[k]
    requires a in ledgers[i].holds
    ensures id in ledgers[k + 1].holds
    ensures ledgers[k + 1].TokenOf(id) != ledgers[i].TokenOf(a)
  {
    OwnersGrow(ledgers, lives, i, i);
    OwnersGrow(ledgers, lives, i, k);
    assert Refreshed(ledgers[k], lives[k], ledgers[k + 1]);
    TokensDiffer(ledgers[i].holds[a], ledgers[k + 1].holds[id]);
  }

  /** The counter wraps, so tokens are unique exactly up to the first 2^64 of them. */
  lemma TokensUniqueExactly(count: nat)
    ensures (forall i: nat, j: nat :: i < j < count ==> NthToken(i) != NthToken(j))
            <==> count <= TWO_TO_THE_64
  {
    if count > TWO_TO_THE_64 {
      assert NthToken(0) == NthToken(TWO_TO_THE_64);
    }
  }

  /** Only clients that are not deleted are listed. */
  lemma {:induction false} ListedAreLive(windows: seq<Window>, id: WindowId)
    ensures id in LiveSet(windows)
            <==> exists i :: 0 <= i < |windows| && windows[i] == Window(id, true, false)
  {
    if windows != [] {
      var front, last := windows[..|windows| - 1], windows[|windows| - 1];
      assert windows[..|front| + 1] == windows && windows[..|front|] == front;
      ListedAreLive(front, id);
      LiveIdsStep(windows, |front|);
    }
  }

  /** The first token is 1, and each is one more than the one before. */
  lemma TokensCount(k: nat)
    ensures NthToken(0) == 1
    ensures k < 0xFFFF_FFFF_FFFF_FFFF ==> NthToken(k) == k + 1
  {
  }
}
