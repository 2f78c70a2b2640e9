/** The wins hook: a list of win records, the draft text of the input bar and
    a validation flag, with the callbacks that change them and the grouping of
    the list by date. The fresh record id (crypto.randomUUID) and the current
    time (new Date().toISOString()) come from outside and are parameters. */
module Wins {
  import opened JsString
  import DateUtils

  datatype Option<T> = None | Some(value: T)

  /** One recorded win. `image` is absent until updateWinImage sets it. */
  datatype Win = Win(id: string, text: string, date: string, image: Option<string>)

  function Ids(ws: seq<Win>): set<string> {
    set w | w in ws :: w.id
  }

  /** The invariant the collection relies on: no two records share an id. */
  predicate UniqueIds(ws: seq<Win>) {
    forall i, j :: 0 <= i < j < |ws| ==> ws[i].id != ws[j].id
  }

  lemma IdsOfIndex(ws: seq<Win>, i: int)
    requires 0 <= i < |ws|
    ensures ws[i].id in Ids(ws)
  {
    assert ws[i] in ws;
  }

  /** Appending a record whose id is fresh keeps the ids unique. */
  lemma AppendFreshKeepsUnique(ws: seq<Win>, w: Win)
    requires UniqueIds(ws) && w.id !in Ids(ws)
    ensures UniqueIds(ws + [w])
  {
    var r := ws + [w];
    forall i, j | 0 <= i < j < |r| ensures r[i].id != r[j].id {
      if j == |ws| {
        IdsOfIndex(ws, i);
      }
    }
  }

  // ---- removeWin: wins.filter((win) => win.id !== id)

  /** The records whose id is not `id`, in their original order. */
  function RemoveById(ws: seq<Win>, id: string): (r: seq<Win>)
    ensures |r| <= |ws|
    ensures forall w :: w in r <==> w in ws && w.id != id
  {
    if ws == [] then []
    else (if ws[0].id == id then [] else [ws[0]]) + RemoveById(ws[1..], id)
  }

  /** Filtering distributes over concatenation, so the survivors keep their
      relative order. */
  lemma {:induction false} RemoveByIdAppend(a: seq<Win>, b: seq<Win>, id: string)
    ensures RemoveById(a + b, id) == RemoveById(a, id) + RemoveById(b, id)
  {
    if a != [] {
      assert (a + b)[1..] == a[1..] + b;
      RemoveByIdAppend(a[1..], b, id);
    } else {
      assert a + b == b;
    }
  }

  /** Removing an id that no record carries changes nothing. */
  lemma {:induction false} RemoveAbsentIsNoOp(ws: seq<Win>, id: string)
    requires id !in Ids(ws)
    ensures RemoveById(ws, id) == ws
  {
    if ws != [] {
      assert ws[0] in ws;
      assert Ids(ws[1..]) <= Ids(ws) by {
        forall x | x in Ids(ws[1..]) ensures x in Ids(ws) {
          var w :| w in ws[1..] && w.id == x;
          assert w in ws;
        }
      }
      RemoveAbsentIsNoOp(ws[1..], id);
      assert ws == [ws[0]] + ws[1..];
    }
  }

  /** Removing the same id twice is removing it once. */
  lemma RemoveIdempotent(ws: seq<Win>, id: string)
    ensures RemoveById(RemoveById(ws, id), id) == RemoveById(ws, id)
  {
    assert id !in Ids(RemoveById(ws, id));
    RemoveAbsentIsNoOp(RemoveById(ws, id), id);
  }

  /** With unique ids, the id at index k is carried by no other record. */
  lemma IdNotElsewhere(ws: seq<Win>, k: int)
    requires UniqueIds(ws) && 0 <= k < |ws|
    ensures ws[k].id !in Ids(ws[..k]) && ws[k].id !in Ids(ws[k + 1..])
  {
    forall w | w in ws[..k] ensures w.id != ws[k].id {
      var i :| 0 <= i < k && ws[..k][i] == w;
      assert ws[i] == w;
    }
    forall w | w in ws[k + 1..] ensures w.id != ws[k].id {
      var i :| 0 <= i < |ws| - k - 1 && ws[k + 1..][i] == w;
      assert ws[k + 1 + i] == w;
    }
  }

  /** With unique ids, removing the id at index k deletes exactly that record
      and leaves the others in their original order. */
  lemma RemoveDeletesExactlyOne(ws: seq<Win>, k: int)
    requires UniqueIds(ws) && 0 <= k < |ws|
    ensures RemoveById(ws, ws[k].id) == ws[..k] + ws[k + 1..]
    ensures |RemoveById(ws, ws[k].id)| == |ws| - 1
  {
    var id := ws[k].id;
    var before, after := ws[..k], ws[k + 1..];
    var tail := [ws[k]] + after;
    assert ws == before + tail;
    assert tail[1..] == after;
    assert RemoveById(tail, id) == RemoveById(after, id);
    RemoveByIdAppend(before, tail, id);
    IdNotElsewhere(ws, k);
    RemoveAbsentIsNoOp(before, id);
    RemoveAbsentIsNoOp(after, id);
  }

  /** Uniqueness of a list with a head: the head's id is not in the rest,
      and the rest is unique. */
  lemma UniqueIdsCons(x: Win, rest: seq<Win>)
    ensures UniqueIds([x] + rest) <==> x.id !in Ids(rest) && UniqueIds(rest)
  {
    var r := [x] + rest;
    if UniqueIds(r) {
      assert r[1..] == rest;
      IdNotElsewhere(r, 0);
      assert UniqueIds(rest) by {
        forall i, j | 0 <= i < j < |rest| ensures rest[i].id != rest[j].id {
          assert rest[i] == r[i + 1] && rest[j] == r[j + 1];
        }
      }
    }
    if x.id !in Ids(rest) && UniqueIds(rest) {
      forall i, j | 0 <= i < j < |r| ensures r[i].id != r[j].id {
        if i == 0 {
          IdsOfIndex(rest, j - 1);
        } else {
          assert r[i] == rest[i - 1] && r[j] == rest[j - 1];
        }
      }
    }
  }

  /** The ids left after a removal are among the ids before it. */
  lemma RemoveByIdIds(ws: seq<Win>, id: string)
    ensures Ids(RemoveById(ws, id)) <= Ids(ws)
  {
    var r := RemoveById(ws, id);
    forall x | x in Ids(r) ensures x in Ids(ws) {
      var w :| w in r && w.id == x;
      assert w in ws;
    }
  }

  /** Removing keeps the ids unique. */
  lemma {:induction false} RemoveKeepsUnique(ws: seq<Win>, id: string)
    requires UniqueIds(ws)
    ensures UniqueIds(RemoveById(ws, id))
  {
    if ws != [] {
      var rest := RemoveById(ws[1..], id);
      assert ws == [ws[0]] + ws[1..];
      UniqueIdsCons(ws[0], ws[1..]);
      RemoveKeepsUnique(ws[1..], id);
      if ws[0].id != id {
        RemoveByIdIds(ws[1..], id);
        UniqueIdsCons(ws[0], rest);
      }
    }
  }

  // ---- updateWinText / updateWinImage: wins.map over the matching id

  /** Every record with id `id` gets `newText` verbatim (no trimming, no blank
      check); everything else stays as it was. */
  function UpdateText(ws: seq<Win>, id: string, newText: string): (r: seq<Win>)
    ensures |r| == |ws|
    ensures forall i :: 0 <= i < |ws| && ws[i].id != id ==> r[i] == ws[i]
    ensures forall i :: 0 <= i < |ws| && ws[i].id == id ==>
      r[i].text == newText && r[i].id == id && r[i].date == ws[i].date && r[i].image == ws[i].image
  {
    if ws == [] then []
    else [if ws[0].id == id then ws[0].(text := newText) else ws[0]] + UpdateText(ws[1..], id, newText)
  }

  /** Every record with id `id` gets `Some(imageUrl)` as its image; everything
      else stays as it was. */
  function UpdateImage(ws: seq<Win>, id: string, imageUrl: string): (r: seq<Win>)
    ensures |r| == |ws|
    ensures forall i :: 0 <= i < |ws| && ws[i].id != id ==> r[i] == ws[i]
    ensures forall i :: 0 <= i < |ws| && ws[i].id == id ==>
      r[i].image == Some(imageUrl) && r[i].id == id && r[i].date == ws[i].date && r[i].text == ws[i].text
  {
    if ws == [] then []
    else [if ws[0].id == id then ws[0].(image := Some(imageUrl)) else ws[0]] + UpdateImage(ws[1..], id, imageUrl)
  }

  /** A text edit keeps every id in its place, so the ids stay unique. */
  lemma UpdateTextKeepsUnique(ws: seq<Win>, id: string, newText: string)
    requires UniqueIds(ws)
    ensures UniqueIds(UpdateText(ws, id, newText))
  {
    var t := UpdateText(ws, id, newText);
    assert forall i :: 0 <= i < |ws| ==> t[i].id == ws[i].id;
  }

  /** An image edit keeps every id in its place, so the ids stay unique. */
  lemma UpdateImageKeepsUnique(ws: seq<Win>, id: string, imageUrl: string)
    requires UniqueIds(ws)
    ensures UniqueIds(UpdateImage(ws, id, imageUrl))
  {
    var m := UpdateImage(ws, id, imageUrl);
    assert forall i :: 0 <= i < |ws| ==> m[i].id == ws[i].id;
  }

  /** Editing the text of an id no record carries changes nothing. */
  lemma UpdateTextAbsentIsNoOp(ws: seq<Win>, id: string, newText: string)
    requires id !in Ids(ws)
    ensures UpdateText(ws, id, newText) == ws
  {
    forall i | 0 <= i < |ws| ensures ws[i].id != id {
      IdsOfIndex(ws, i);
    }
  }

  /** Setting the image of an id no record carries changes nothing. */
  lemma UpdateImageAbsentIsNoOp(ws: seq<Win>, id: string, imageUrl: string)
    requires id !in Ids(ws)
    ensures UpdateImage(ws, id, imageUrl) == ws
  {
    forall i | 0 <= i < |ws| ensures ws[i].id != id {
      IdsOfIndex(ws, i);
    }
  }

  /** Two text edits of the same record: the last one wins. */
  lemma UpdateTextLastWriteWins(ws: seq<Win>, id: string, t1: string, t2: string)
    ensures UpdateText(UpdateText(ws, id, t1), id, t2) == UpdateText(ws, id, t2)
  {
    var a, b := UpdateText(UpdateText(ws, id, t1), id, t2), UpdateText(ws, id, t2);
    assert forall i :: 0 <= i < |ws| ==> a[i] == b[i];
  }

  /** Two image edits of the same record: the last one wins. */
  lemma UpdateImageLastWriteWins(ws: seq<Win>, id: string, u1: string, u2: string)
    ensures UpdateImage(UpdateImage(ws, id, u1), id, u2) == UpdateImage(ws, id, u2)
  {
    var c, d := UpdateImage(UpdateImage(ws, id, u1), id, u2), UpdateImage(ws, id, u2);
    assert forall i :: 0 <= i < |ws| ==> c[i] == d[i];
  }

  // ---- groupedWins: wins.reduce into { [date]: [win, ...] }

  function Dates(ws: seq<Win>): set<string> {
    set w | w in ws :: w.date
  }

  /** The wins of one day, in list order. */
  function Bucket(ws: seq<Win>, date: string): (r: seq<Win>)
    ensures |r| <= |ws|
  {
    if ws == [] then []
    else Bucket(ws[..|ws| - 1], date) + (if ws[|ws| - 1].date == date then [ws[|ws| - 1]] else [])
  }

  /** A day's bucket holds exactly the wins of that day. */
  lemma {:induction false} BucketMembers(ws: seq<Win>, date: string)
    ensures forall w :: w in Bucket(ws, date) <==> w in ws && w.date == date
  {
    if ws != [] {
      var prev := ws[..|ws| - 1];
      BucketMembers(prev, date);
      assert ws == prev + [ws[|ws| - 1]];
    }
  }

  /** The days present, in order of first appearance: the order in which a
      JS object enumerates the keys the reduction creates. */
  function DistinctDates(ws: seq<Win>): (r: seq<string>)
    ensures forall d :: d in r <==> d in Dates(ws)
    ensures forall i, j :: 0 <= i < j < |r| ==> r[i] != r[j]
  {
    if ws == [] then []
    else
      var prev := DistinctDates(ws[..|ws| - 1]);
      assert forall w :: w in ws <==> w in ws[..|ws| - 1] || w == ws[|ws| - 1];
      if ws[|ws| - 1].date in prev then prev else prev + [ws[|ws| - 1].date]
  }

  /** Sum of the sizes of the buckets named in `keys`. */
  function SumSizes(groups: map<string, seq<Win>>, keys: seq<string>): nat
    requires forall k :: k in keys ==> k in groups
  {
    if keys == [] then 0 else SumSizes(groups, keys[..|keys| - 1]) + |groups[keys[|keys| - 1]]|
  }

  /** Sum of the sizes of the days' buckets for the days in `keys`. */
  function SumBuckets(ws: seq<Win>, keys: seq<string>): nat {
    if keys == [] then 0 else SumBuckets(ws, keys[..|keys| - 1]) + |Bucket(ws, keys[|keys| - 1])|
  }

  lemma {:induction false} SumSizesOfBuckets(ws: seq<Win>, groups: map<string, seq<Win>>, keys: seq<string>)
    requires forall k :: k in keys ==> k in groups && groups[k] == Bucket(ws, k)
    ensures SumSizes(groups, keys) == SumBuckets(ws, keys)
  {
    if keys != [] {
      SumSizesOfBuckets(ws, groups, keys[..|keys| - 1]);
    }
  }

  lemma BucketSnoc(ws: seq<Win>, w: Win, date: string)
    ensures Bucket(ws + [w], date) == Bucket(ws, date) + (if w.date == date then [w] else [])
  {
    assert (ws + [w])[..|ws|] == ws;
  }

  lemma DistinctDatesSnoc(ws: seq<Win>, w: Win)
    ensures DistinctDates(ws + [w]) == if w.date in DistinctDates(ws) then DistinctDates(ws) else DistinctDates(ws) + [w.date]
  {
    assert (ws + [w])[..|ws|] == ws;
  }

  lemma DatesSnoc(ws: seq<Win>, w: Win)
    ensures Dates(ws + [w]) == Dates(ws) + {w.date}
  {
    assert forall v :: v in ws + [w] <==> v in ws || v == w;
  }

  /** The grouping of a prefix of the wins: what the reduction's accumulator
      holds after the first `i` wins. */
  ghost predicate GroupsPrefix(ws: seq<Win>, i: nat, keys: seq<string>, groups: map<string, seq<Win>>)
    requires i <= |ws|
  {
    && keys == DistinctDates(ws[..i])
    && groups.Keys == Dates(ws[..i])
    && forall d :: d in groups ==> groups[d] == Bucket(ws[..i], d)
  }

  /** One step of the reduction: appending win `i` to its day's bucket
      (created empty when missing) extends the grouping by that win. */
  lemma GroupStep(ws: seq<Win>, i: nat, keys: seq<string>, groups: map<string, seq<Win>>)
    requires i < |ws| && GroupsPrefix(ws, i, keys, groups)
    ensures var w := ws[i];
      var bucket := if w.date in groups then groups[w.date] else [];
      GroupsPrefix(ws, i + 1, if w.date in groups then keys else keys + [w.date], groups[w.date := bucket + [w]])
  {
    var w := ws[i];
    var prefix := ws[..i];
    assert ws[..i + 1] == prefix + [w];
    DistinctDatesSnoc(prefix, w);
    BucketsStep(prefix, w, groups);
  }

  /** The buckets' half of a step, over the prefix itself. */
  lemma BucketsStep(prefix: seq<Win>, w: Win, groups: map<string, seq<Win>>)
    requires groups.Keys == Dates(prefix)
    requires forall d :: d in groups ==> groups[d] == Bucket(prefix, d)
    ensures var bucket := if w.date in groups then groups[w.date] else [];
      var g1 := groups[w.date := bucket + [w]];
      && g1.Keys == Dates(prefix + [w])
      && forall d :: d in g1 ==> g1[d] == Bucket(prefix + [w], d)
  {
    DatesSnoc(prefix, w);
    var bucket := if w.date in groups then groups[w.date] else [];
    if w.date !in groups {
      BucketEmptyIfAbsent(prefix, w.date);
    }
    BucketSnoc(prefix, w, w.date);
    var g1 := groups[w.date := bucket + [w]];
    assert g1[w.date] == Bucket(prefix + [w], w.date);
    forall d | d in g1 && d != w.date ensures g1[d] == Bucket(prefix + [w], d) {
      BucketSnoc(prefix, w, d);
    }
  }

  /** A day with no win has an empty bucket. */
  lemma BucketEmptyIfAbsent(ws: seq<Win>, date: string)
    requires date !in Dates(ws)
    ensures Bucket(ws, date) == []
  {
    BucketMembers(ws, date);
  }

  /** What a grouping by days promises: each win sits in its own day's
      bucket and in no other, and no bucket is empty. */
  lemma GroupingPartition(ws: seq<Win>, groups: map<string, seq<Win>>)
    requires groups.Keys == Dates(ws)
    requires forall d :: d in groups ==> groups[d] == Bucket(ws, d)
    ensures forall w :: w in ws ==> w.date in groups && w in groups[w.date]
    ensures forall d, w :: d in groups && w in groups[d] ==> w.date == d
    ensures forall d :: d in groups ==> groups[d] != []
  {
    forall d | d in groups ensures forall w :: w in groups[d] <==> w in ws && w.date == d {
      BucketMembers(ws, d);
    }
    forall d | d in groups ensures groups[d] != [] {
      var v :| v in ws && v.date == d;
      assert v in groups[d];
    }
  }

  /** The reduction of groupedWins. For every win, `acc[win.date] || []` is
      the day's array when it exists (an array is truthy) and a new empty one
      otherwise, and `push` appends the win to it; a day's key is created, and
      so enumerated, on its first win. */
  method GroupByDate(ws: seq<Win>) returns (keys: seq<string>, groups: map<string, seq<Win>>)
    ensures keys == DistinctDates(ws)
    ensures groups.Keys == Dates(ws)
    ensures forall d :: d in groups ==> groups[d] == Bucket(ws, d)
    ensures forall w :: w in ws ==> w.date in groups && w in groups[w.date]
    ensures forall d, w :: d in groups && w in groups[d] ==> w.date == d
    ensures forall d :: d in groups ==> groups[d] != []
    ensures SumSizes(groups, keys) == |ws|
  {
    keys, groups := [], map[];
    var i := 0;
    while i < |ws|
      invariant 0 <= i <= |ws|
      invariant GroupsPrefix(ws, i, keys, groups)
    {
      var w := ws[i];
      GroupStep(ws, i, keys, groups);
      var bucket := if w.date in groups then groups[w.date] else [];
      if w.date !in groups {
        keys := keys + [w.date];
      }
      groups := groups[w.date := bucket + [w]];
      i := i + 1;
    }
    assert ws[..i] == ws;
    GroupingPartition(ws, groups);
    SumSizesOfBuckets(ws, groups, keys);
    BucketSizesSum(ws);
  }

  /** A day's bucket of a concatenation is the two buckets one after the
      other: grouping never reorders wins of the same day. */
  lemma {:induction false} BucketAppend(a: seq<Win>, b: seq<Win>, date: string)
    ensures Bucket(a + b, date) == Bucket(a, date) + Bucket(b, date)
  {
    if b == [] {
      assert a + b == a;
    } else {
      var b' := b[..|b| - 1];
      assert (a + b)[..|a + b| - 1] == a + b';
      BucketAppend(a, b', date);
    }
  }

  /** Adding one win adds one to the bucket sizes of a list of distinct days
      that holds its day, and nothing otherwise. */
  lemma {:induction false} SumBucketsStep(ws: seq<Win>, w: Win, keys: seq<string>)
    requires forall i, j :: 0 <= i < j < |keys| ==> keys[i] != keys[j]
    ensures SumBuckets(ws + [w], keys) == SumBuckets(ws, keys) + (if w.date in keys then 1 else 0)
  {
    if keys != [] {
      var init := keys[..|keys| - 1];
      var last := keys[|keys| - 1];
      SumBucketsStep(ws, w, init);
      BucketSnoc(ws, w, last);
      assert last !in init;
      assert keys == init + [last];
    }
  }

  /** The bucket sizes add up to the number of wins: every win is in exactly
      one bucket. */
  lemma {:induction false} BucketSizesSum(ws: seq<Win>)
    ensures SumBuckets(ws, DistinctDates(ws)) == |ws|
  {
    if ws != [] {
      var prev := ws[..|ws| - 1];
      var w := ws[|ws| - 1];
      var keys := DistinctDates(prev);
      assert ws == prev + [w];
      BucketSizesSum(prev);
      SumBucketsStep(prev, w, keys);
      DistinctDatesSnoc(prev, w);
      if w.date !in keys {
        var all := keys + [w.date];
        assert all[..|all| - 1] == keys;
        BucketSnoc(prev, w, w.date);
        BucketEmptyIfAbsent(prev, w.date);
      }
    }
  }

  // ---- the hook's state and callbacks

  /** The three pieces of state, as a value. */
  datatype Snapshot = Snapshot(wins: seq<Win>, text: string, error: bool)

  /** addWin: a draft that is not blank after trimming becomes the last record
      (trimmed text, the day of `nowIso`, the fresh id, no image), and the draft
      and the error flag are cleared; a blank draft only raises the error flag. */
  function AddWinOutcome(s: Snapshot, freshId: string, nowIso: string): (r: Snapshot)
    ensures Trim(s.text) != [] ==>
      && |r.wins| == |s.wins| + 1
      && r.wins[..|s.wins|] == s.wins
      && r.wins[|s.wins|] == Win(freshId, Trim(s.text), DateUtils.GetTodayISO(nowIso), None)
      && r.text == [] && !r.error
    ensures Trim(s.text) == [] ==> r.wins == s.wins && r.text == s.text && r.error
  {
    var trimmed := Trim(s.text);
    if trimmed != [] then
      Snapshot(s.wins + [Win(freshId, trimmed, DateUtils.GetTodayISO(nowIso), None)], "", false)
    else
      s.(error := true)
  }

  /** A rejected draft is exactly a whitespace-only one, and the stored text
      of an accepted one has no whitespace at either end. */
  lemma AddWinValidation(s: Snapshot, freshId: string, nowIso: string)
    ensures AddWinOutcome(s, freshId, nowIso).error <==> AllWhitespace(s.text)
    ensures !AllWhitespace(s.text) ==>
      var t := AddWinOutcome(s, freshId, nowIso).wins[|s.wins|].text;
      t != [] && !IsWhitespace(t[0]) && !IsWhitespace(t[|t| - 1])
  {
    TrimEmptyIffBlank(s.text);
  }

  /** An accepted win keeps the ids unique when its id is fresh. */
  lemma AddWinKeepsUnique(s: Snapshot, freshId: string, nowIso: string)
    requires UniqueIds(s.wins)
    requires Trim(s.text) != [] ==> freshId !in Ids(s.wins)
    ensures UniqueIds(AddWinOutcome(s, freshId, nowIso).wins)
  {
    if Trim(s.text) != [] {
      AppendFreshKeepsUnique(s.wins, Win(freshId, Trim(s.text), DateUtils.GetTodayISO(nowIso), None));
    }
  }

  /** With the current time as a standard `toISOString()` value, an accepted
      win is dated with that instant's YYYY-MM-DD day. */
  lemma AddWinDateIsIsoDay(s: Snapshot, freshId: string,
                           year: nat, month: nat, day: nat, hour: nat, minute: nat, second: nat, millis: nat)
    requires year <= 9999 && 1 <= month <= 12 && 1 <= day <= 31
    requires hour < 24 && minute < 60 && second < 60 && millis < 1000
    requires Trim(s.text) != []
    ensures var r := AddWinOutcome(s, freshId, DateUtils.IsoTimestamp(year, month, day, hour, minute, second, millis));
      && r.wins[|s.wins|].date == DateUtils.IsoDate(year, month, day)
      && |r.wins[|s.wins|].date| == 10
  {
    DateUtils.TodayOfIsoTimestamp(year, month, day, hour, minute, second, millis);
  }

  /** The state of the hook: the wins (mirrored to local storage in the app),
      the draft of the input bar and whether the last submission was blank. */
  class WinsState {
    var wins: seq<Win>
    var text: string
    var error: bool

    ghost predicate Valid()
      reads this
    {
      UniqueIds(wins)
    }

    function State(): Snapshot
      reads this
    {
      Snapshot(wins, text, error)
    }

    /** A fresh hook: no wins yet (the storage default), an empty draft, no
        error. */
    constructor ()
      ensures Valid() && wins == [] && text == [] && !error
    {
      wins := [];
      text := "";
      error := false;
    }

    /** addWin. The id is drawn only when the draft is accepted, so only then
        must it be fresh. */
    method AddWin(freshId: string, nowIso: string)
      requires Valid()
      requires Trim(text) != [] ==> freshId !in Ids(wins)
      modifies this
      ensures Valid()
      ensures State() == AddWinOutcome(old(State()), freshId, nowIso)
    {
      AddWinKeepsUnique(State(), freshId, nowIso);
      var trimmed := Trim(text);
      if trimmed != [] {
        var newWin := Win(freshId, trimmed, DateUtils.GetTodayISO(nowIso), None);
        wins := wins + [newWin];
        text := "";
        error := false;
      } else {
        error := true;
      }
    }

    /** removeWin: the list loses the records with that id; the draft and the
        flag are untouched. */
    method RemoveWin(id: string)
      requires Valid()
      modifies this
      ensures Valid()
      ensures wins == RemoveById(old(wins), id)
      ensures text == old(text) && error == old(error)
    {
      RemoveKeepsUnique(wins, id);
      wins := RemoveById(wins, id);
    }

    /** updateWinText */
    method UpdateWinText(id: string, newText: string)
      requires Valid()
      modifies this
      ensures Valid()
      ensures wins == UpdateText(old(wins), id, newText)
      ensures text == old(text) && error == old(error)
    {
      UpdateTextKeepsUnique(wins, id, newText);
      wins := UpdateText(wins, id, newText);
    }

    /** updateWinImage */
    method UpdateWinImage(id: string, imageUrl: string)
      requires Valid()
      modifies this
      ensures Valid()
      ensures wins == UpdateImage(old(wins), id, imageUrl)
      ensures text == old(text) && error == old(error)
    {
      UpdateImageKeepsUnique(wins, id, imageUrl);
      wins := UpdateImage(wins, id, imageUrl);
    }

    /** handleChange: the draft becomes the input's value and any error is
        cleared. */
    method HandleChange(value: string)
      requires Valid()
      modifies this
      ensures Valid()
      ensures wins == old(wins) && text == value && !error
    {
      text := value;
      if error {
        error := false;
      }
    }

    /** setText, which the hook hands out as well: the draft only. */
    method SetText(value: string)
      requires Valid()
      modifies this
      ensures Valid()
      ensures wins == old(wins) && text == value && error == old(error)
    {
      text := value;
    }

    /** handleKeyDown: Enter submits the draft as addWin does; any other key
        changes nothing. */
    method HandleKeyDown(key: string, freshId: string, nowIso: string)
      requires Valid()
      requires key == "Enter" && Trim(text) != [] ==> freshId !in Ids(wins)
      modifies this
      ensures Valid()
      ensures State() == if key == "Enter" then AddWinOutcome(old(State()), freshId, nowIso) else old(State())
    {
      if key == "Enter" {
        AddWin(freshId, nowIso);
      }
    }
  }
}
