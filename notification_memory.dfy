/** The day-scoped reminder memory behind `filter_messages_by_memory`: a dict from a
    message's stripped text to `{"count": …, "last_seen": "YYYY-MM-DD"}`. Within one day
    each sighting of a message adds one to its count, and a message is sent while its
    count stays within the threshold; entries from other days are dropped. */
module NotificationMemory {
  import opened Text
  import opened Wrappers

  // ---------------------------------------------------------------------------
  // The stored memory.

  /** The `count` field as `int(entry.get("count", 0))` sees it: missing, an integer value,
      or a value `int()` rejects. */
  datatype Count = Absent | Num(n: int) | Unconvertible

  /** One value of the memory dict: a dict with its `count` and its `last_seen` (`None` when
      missing or not a string), or any other JSON value, which is falsy or not. */
  datatype Entry = Record(count: Count, lastSeen: Option<string>) | NonDict(truthy: bool)

  /** The memory file: missing, unreadable or not JSON, or a JSON document. */
  datatype Store = NoFile | Unreadable | Json(doc: Document)

  datatype Document = Object(entries: map<string, Entry>) | OtherJson

  /** How writing the memory file ended: written, not opened (the old file stays), or
      interrupted after the file was truncated. */
  datatype WriteOutcome = Written | NotOpened | Interrupted

  /** `load_memory()`: the stored dict, and an empty dict whenever there is none to read. */
  function LoadMemory(store: Store): (mem: map<string, Entry>)
    ensures store.Json? && store.doc.Object? ==> mem == store.doc.entries
    ensures !(store.Json? && store.doc.Object?) ==> mem == map[]
  {
    match store
    case Json(Object(entries)) => entries
    case _ => map[]
  }

  /** `save_memory(mem)`: the file after the write; a failure is logged and swallowed. */
  function SaveMemory(store: Store, mem: map<string, Entry>, outcome: WriteOutcome): Store
  {
    match outcome
    case Written => Json(Object(mem))
    case NotOpened => store
    case Interrupted => Unreadable
  }

  /** Loading never fails, and after a save it gives the saved dict, the dict loaded before,
      or an empty dict. */
  lemma SaveThenLoad(store: Store, mem: map<string, Entry>, outcome: WriteOutcome)
    ensures outcome == Written ==> LoadMemory(SaveMemory(store, mem, outcome)) == mem
    ensures var after := LoadMemory(SaveMemory(store, mem, outcome));
            after == mem || after == LoadMemory(store) || after == map[]
  {
  }

  // ---------------------------------------------------------------------------
  // The closed form of one call.

  /** What one call of `filter_messages_by_memory` returns: an exception, or the messages to
      send and the updated memory. */
  datatype FilterResult = Raised | Filtered(toNotify: seq<string>, updated: map<string, Entry>)

  /** The signatures of a batch: each message stripped, blank ones dropped, in order. */
  function Signatures(messages: seq<string>): (sigs: seq<string>)
    ensures forall k :: k in sigs ==> k != []
  {
    if messages == [] then []
    else
      var slot := Strip(messages[|messages| - 1]);
      Signatures(messages[..|messages| - 1]) + (if slot == [] then [] else [slot])
  }

  predicate DatedToday(e: Entry, today: string)
  {
    e.Record? && e.lastSeen == Some(today)
  }

  /** The count a signature starts the day's batch with: its stored count when its entry is
      dated today (0 when the count is missing), otherwise 0. */
  function Carry(mem: map<string, Entry>, today: string, k: string): int
  {
    if k in mem && DatedToday(mem[k], today) && mem[k].count.Num? then mem[k].count.n else 0
  }

  /** The first sighting of `k` in a batch raises: its entry is a truthy non-dict, or is dated
      today with a count `int()` rejects. */
  predicate Troubled(mem: map<string, Entry>, today: string, k: string)
  {
    k in mem && ((mem[k].NonDict? && mem[k].truthy) || (DatedToday(mem[k], today) && mem[k].count.Unconvertible?))
  }

  /** The call raises: a signature's first sighting raises, or the purge meets a non-dict
      entry that the batch did not overwrite. */
  predicate Raises(mem: map<string, Entry>, today: string, sigs: seq<string>)
  {
    || (exists k :: k in sigs && Troubled(mem, today, k))
    || (exists k :: k in mem && mem[k].NonDict? && k !in sigs)
  }

  /** The count written for the `j`-th signature: the carried count plus its sightings so far,
      this one included. */
  function NewCount(mem: map<string, Entry>, today: string, sigs: seq<string>, j: nat): int
    requires j < |sigs|
  {
    Carry(mem, today, sigs[j]) + multiset(sigs[..j + 1])[sigs[j]]
  }

  /** The signatures sent, in batch order: those whose new count is within the threshold. */
  function Notified(mem: map<string, Entry>, today: string, threshold: int, sigs: seq<string>): seq<string>
  {
    if sigs == [] then []
    else
      var last := |sigs| - 1;
      Notified(mem, today, threshold, sigs[..last])
        + (if NewCount(mem, today, sigs, last) <= threshold then [sigs[last]] else [])
  }

  /** The memory after the batch but before the purge: each signature overwritten with its
      count and today's date, every other entry as loaded. */
  function Overlay(mem: map<string, Entry>, today: string, sigs: seq<string>): map<string, Entry>
  {
    map k | k in mem.Keys + (set s | s in sigs) ::
      if k in sigs then Record(Num(Carry(mem, today, k) + multiset(sigs)[k]), Some(today)) else mem[k]
  }

  /** The memory returned and saved: the overlay without the entries not dated today. */
  function Updated(mem: map<string, Entry>, today: string, sigs: seq<string>): map<string, Entry>
  {
    DatedOnly(Overlay(mem, today, sigs), today)
  }

  /** The entries of `m` dated `today`. */
  function DatedOnly(m: map<string, Entry>, today: string): map<string, Entry>
  {
    map k | k in m && DatedToday(m[k], today) :: m[k]
  }

  /** What `filter_messages_by_memory(messages, threshold)` does with the loaded memory `mem`
      on the day `today`. */
  function FilterSpec(messages: seq<string>, mem: map<string, Entry>, today: string, threshold: int): FilterResult
  {
    var sigs := Signatures(messages);
    if Raises(mem, today, sigs) then Raised
    else Filtered(Notified(mem, today, threshold, sigs), Updated(mem, today, sigs))
  }

  // ---------------------------------------------------------------------------
  // The method.

  /** The count loop: `updated` and `to_notify` hold what the signatures `done` produced,
      none of which raised. */
  ghost predicate CountedSoFar(mem: map<string, Entry>, today: string, threshold: int, done: seq<string>,
                               updated: map<string, Entry>, toNotify: seq<string>)
  {
    && (forall k :: k in done ==> !Troubled(mem, today, k))
    && updated == Overlay(mem, today, done)
    && toNotify == Notified(mem, today, threshold, done)
  }

  /** The count for the next sighting of a signature, given the entry found for it: its
      stored count plus one when the entry is truthy and dated today (a missing count reads
      as 0), otherwise 1; `None` when the lookup raises (`.get` on a truthy non-dict, `int()`
      on a count it rejects). */
  function NextCount(found: Option<Entry>, today: string): Option<int>
  {
    match found
    case None => Some(1)
    case Some(NonDict(truthy)) => if truthy then None else Some(1)
    case Some(Record(count, lastSeen)) =>
      if lastSeen == Some(today) then
        match count
        case Absent => Some(1)
        case Num(n) => Some(n + 1)
        case Unconvertible => None
      else Some(1)
  }

  /** The entry the count loop finds for a signature: the one it wrote, for a signature
      already sighted in this batch, otherwise the loaded one. */
  lemma OverlayAt(mem: map<string, Entry>, today: string, done: seq<string>, slot: string)
    ensures slot in done ==>
              (slot in Overlay(mem, today, done)
               && Overlay(mem, today, done)[slot] == Record(Num(Carry(mem, today, slot) + multiset(done)[slot]), Some(today)))
    ensures slot !in done ==> (slot in Overlay(mem, today, done) <==> slot in mem)
    ensures slot !in done && slot in mem ==> Overlay(mem, today, done)[slot] == mem[slot]
  {
  }

  /** One more sighting: its count is the carried count plus all its sightings so far. */
  lemma NewCountLast(mem: map<string, Entry>, today: string, done: seq<string>, slot: string)
    ensures NewCount(mem, today, done + [slot], |done|) == Carry(mem, today, slot) + multiset(done)[slot] + 1
    ensures slot !in done ==> multiset(done)[slot] == 0
  {
    assert (done + [slot])[..|done| + 1] == done + [slot];
  }

  /** The count the loop computes from the entry it finds is the closed-form count, and the
      lookup raises exactly at the first sighting of a troubled signature. */
  lemma CountAgrees(mem: map<string, Entry>, today: string, done: seq<string>, slot: string)
    ensures var o := Overlay(mem, today, done);
            NextCount(if slot in o then Some(o[slot]) else None, today)
            == if slot !in done && Troubled(mem, today, slot) then None
               else Some(NewCount(mem, today, done + [slot], |done|))
  {
    OverlayAt(mem, today, done, slot);
    NewCountLast(mem, today, done, slot);
  }

  /** One more sighting overwrites its entry with its new count and today's date. */
  lemma OverlayStep(mem: map<string, Entry>, today: string, done: seq<string>, slot: string)
    ensures Overlay(mem, today, done + [slot])
         == Overlay(mem, today, done)[slot := Record(Num(NewCount(mem, today, done + [slot], |done|)), Some(today))]
  {
    var l := Overlay(mem, today, done + [slot]);
    var r := Overlay(mem, today, done)[slot := Record(Num(NewCount(mem, today, done + [slot], |done|)), Some(today))];
    forall k ensures (k in l <==> k in r) && (k in l ==> l[k] == r[k]) {
      OverlayStepAt(mem, today, done, slot, k);
    }
  }

  lemma OverlayStepAt(mem: map<string, Entry>, today: string, done: seq<string>, slot: string, k: string)
    ensures var l := Overlay(mem, today, done + [slot]);
            var r := Overlay(mem, today, done)[slot := Record(Num(NewCount(mem, today, done + [slot], |done|)), Some(today))];
            (k in l <==> k in r) && (k in l ==> l[k] == r[k])
  {
    NewCountLast(mem, today, done, slot);
    var sigs := done + [slot];
    assert multiset(sigs) == multiset(done) + multiset{slot};
    assert k in sigs <==> k in done || k == slot;
  }

  /** One more sighting is sent exactly when its new count is within the threshold. */
  lemma NotifiedStep(mem: map<string, Entry>, today: string, threshold: int, done: seq<string>, slot: string)
    ensures Notified(mem, today, threshold, done + [slot])
         == Notified(mem, today, threshold, done)
            + (if NewCount(mem, today, done + [slot], |done|) <= threshold then [slot] else [])
  {
    assert (done + [slot])[..|done|] == done;
  }

  /** `filter_messages_by_memory(messages, threshold)` on the loaded memory `mem` and the
      date `today`; the save is left to the caller. */
  method FilterByMemory(messages: seq<string>, mem: map<string, Entry>, today: string, threshold: int)
    returns (r: FilterResult)
    ensures r == FilterSpec(messages, mem, today, threshold)
  {
    var raised, updated, toNotify := CountSightings(messages, mem, today, threshold);
    if raised {
      return Raised;
    }
    var kept := PurgeStale(updated, today);
    if kept.None? {
      PurgeRaises(mem, today, Signatures(messages));
      return Raised;
    }
    PurgeSucceeds(mem, today, Signatures(messages));
    r := Filtered(toNotify, kept.value);
  }

  /** The loop over the messages: count each stripped, non-empty message and collect those
      within the threshold; `raised` when a lookup raises. */
  method CountSightings(messages: seq<string>, mem: map<string, Entry>, today: string, threshold: int)
    returns (raised: bool, updated: map<string, Entry>, toNotify: seq<string>)
    ensures raised ==> Raises(mem, today, Signatures(messages))
    ensures !raised ==> CountedSoFar(mem, today, threshold, Signatures(messages), updated, toNotify)
  {
    updated, toNotify := mem, [];
    ghost var done: seq<string> := [];
    for i := 0 to |messages|
      invariant done == Signatures(messages[..i])
      invariant CountedSoFar(mem, today, threshold, done, updated, toNotify)
    {
      SignaturesStep(messages, i);
      var slot := Strip(messages[i]);
      if slot != [] {
        CountAgrees(mem, today, done, slot);
        var next := NextCount(if slot in updated then Some(updated[slot]) else None, today);
        if next.None? {
          FirstSightingRaises(messages, i, mem, today);
          return true, updated, toNotify;
        }
        var count := next.value;
        OverlayStep(mem, today, done, slot);
        NotifiedStep(mem, today, threshold, done, slot);
        updated := updated[slot := Record(Num(count), Some(today))];
        if count <= threshold {
          toNotify := toNotify + [slot];
        }
        done := done + [slot];
      }
    }
    assert messages[..|messages|] == messages;
    raised := false;
  }

  /** The clean-up: collect the keys whose entry is not dated today, then drop them; `None`
      when an entry is not a dict, on which `.get` raises. */
  method PurgeStale(updated: map<string, Entry>, today: string) returns (kept: Option<map<string, Entry>>)
    ensures kept.None? <==> exists k :: k in updated && updated[k].NonDict?
    ensures kept.Some? ==> kept.value == DatedOnly(updated, today)
  {
    var pending := updated.Keys;
    var stale: set<string> := {};
    while pending != {}
      invariant pending <= updated.Keys
      invariant forall k :: k in updated && k !in pending ==> updated[k].Record?
      invariant forall k :: k in stale <==> k in updated && k !in pending && !DatedToday(updated[k], today)
      decreases pending
    {
      var k :| k in pending;
      if updated[k].NonDict? {
        return None;
      }
      if updated[k].lastSeen != Some(today) {
        stale := stale + {k};
      }
      pending := pending - {k};
    }
    kept := Some(updated - stale);
  }

  /** Reading one more message adds its stripped text to the signatures unless it is blank. */
  lemma SignaturesStep(messages: seq<string>, i: nat)
    requires i < |messages|
    ensures Signatures(messages[..i + 1])
         == Signatures(messages[..i]) + (if Strip(messages[i]) == [] then [] else [Strip(messages[i])])
  {
    assert messages[..i + 1][..i] == messages[..i];
  }

  /** The first sighting of a troubled signature makes the whole call raise. */
  lemma FirstSightingRaises(messages: seq<string>, i: nat, mem: map<string, Entry>, today: string)
    requires i < |messages| && Strip(messages[i]) != [] && Troubled(mem, today, Strip(messages[i]))
    ensures Raises(mem, today, Signatures(messages))
  {
    SignaturesStep(messages, i);
    SignaturesPrefix(messages, i + 1);
    assert Strip(messages[i]) in Signatures(messages);
  }

  /** Every signature of a prefix of the batch is a signature of the batch. */
  lemma {:induction false} SignaturesPrefix(messages: seq<string>, i: nat)
    requires i <= |messages|
    ensures forall k :: k in Signatures(messages[..i]) ==> k in Signatures(messages)
  {
    if i < |messages| {
      var init := messages[..|messages| - 1];
      assert init[..i] == messages[..i];
      SignaturesPrefix(init, i);
    } else {
      assert messages[..i] == messages;
    }
  }

  /** A non-dict entry left in the overlay makes the purge raise. */
  lemma PurgeRaises(mem: map<string, Entry>, today: string, sigs: seq<string>)
    requires exists k :: k in Overlay(mem, today, sigs) && Overlay(mem, today, sigs)[k].NonDict?
    ensures Raises(mem, today, sigs)
  {
    var k :| k in Overlay(mem, today, sigs) && Overlay(mem, today, sigs)[k].NonDict?;
    assert k in mem && k !in sigs;
  }

  /** When no signature raised and no non-dict entry is left, the call does not raise. */
  lemma PurgeSucceeds(mem: map<string, Entry>, today: string, sigs: seq<string>)
    requires forall k :: k in sigs ==> !Troubled(mem, today, k)
    requires !exists k :: k in Overlay(mem, today, sigs) && Overlay(mem, today, sigs)[k].NonDict?
    ensures !Raises(mem, today, sigs)
  {
    var o := Overlay(mem, today, sigs);
    forall k | k in mem && mem[k].NonDict? ensures k in sigs {
      assert k in o;
    }
  }

  // ---------------------------------------------------------------------------
  // What one call promises.

  /** After a call that does not raise: every entry is a dict dated today; every signature
      of the batch is present with its carried count plus its sightings; an entry dated
      today that the batch did not mention is kept as it was; every other entry is gone. */
  lemma UpdatedShape(mem: map<string, Entry>, today: string, sigs: seq<string>)
    ensures var u := Updated(mem, today, sigs);
            && (forall k :: k in u ==> DatedToday(u[k], today))
            && (forall k :: k in sigs ==> k in u && u[k].count == Num(Carry(mem, today, k) + multiset(sigs)[k]))
            && (forall k :: k in mem && k !in sigs && DatedToday(mem[k], today) ==> k in u && u[k] == mem[k])
            && (forall k :: k in u <==> k in sigs || (k in mem && DatedToday(mem[k], today)))
  {
  }

  /** What the next call on the same day carries over: the counts this call wrote. */
  lemma CarryAfter(mem: map<string, Entry>, today: string, sigs: seq<string>, k: string)
    ensures Carry(Updated(mem, today, sigs), today, k) == Carry(mem, today, k) + multiset(sigs)[k]
  {
    if k !in sigs {
      assert multiset(sigs)[k] == 0;
    }
  }

  lemma {:induction false} SignaturesConcat(m1: seq<string>, m2: seq<string>)
    ensures Signatures(m1 + m2) == Signatures(m1) + Signatures(m2)
  {
    if m2 != [] {
      var init := m2[..|m2| - 1];
      SignaturesConcat(m1, init);
      assert (m1 + m2)[..|m1 + m2| - 1] == m1 + init;
    } else {
      assert m1 + m2 == m1;
    }
  }

  /** The signatures are exactly the batch's non-blank messages, stripped, in order and with
      repeats: the same list `[ln.strip() for ln in pieces if ln.strip()]` yields. */
  lemma {:induction false} SignaturesNonBlank(messages: seq<string>)
    ensures Signatures(messages) == NonBlank(messages)
  {
    if messages != [] {
      var init, last := messages[..|messages| - 1], messages[|messages| - 1];
      SignaturesNonBlank(init);
      NonBlankSnoc(init, last);
      LastSplit(messages);
    }
  }

  lemma LastSplit(messages: seq<string>)
    requires messages != []
    ensures messages[..|messages| - 1] + [messages[|messages| - 1]] == messages
  {
  }

  /** Both lists grow by the same piece when a message is appended. */
  lemma NonBlankSnoc(init: seq<string>, last: string)
    ensures NonBlank(init + [last]) == NonBlank(init) + (if Strip(last) == [] then [] else [Strip(last)])
  {
    NonBlankOne(last);
    NonBlankConcat(init, [last]);
  }

  /** Sightings in a later batch of the same day count on from the earlier batch's. */
  lemma NewCountConcat(mem: map<string, Entry>, today: string, s1: seq<string>, s2: seq<string>, j: nat)
    requires j < |s2|
    ensures NewCount(mem, today, s1 + s2, |s1| + j) == NewCount(Updated(mem, today, s1), today, s2, j)
  {
    var k := s2[j];
    CarryAfter(mem, today, s1, k);
    assert (s1 + s2)[..|s1| + j + 1] == s1 + s2[..j + 1];
  }

  lemma {:induction false} NotifiedConcat(mem: map<string, Entry>, today: string, threshold: int, s1: seq<string>, s2: seq<string>)
    ensures Notified(mem, today, threshold, s1 + s2)
         == Notified(mem, today, threshold, s1) + Notified(Updated(mem, today, s1), today, threshold, s2)
  {
    if s2 == [] {
      assert s1 + s2 == s1;
    } else {
      var init, x := s2[..|s2| - 1], s2[|s2| - 1];
      var u := Updated(mem, today, s1);
      assert s2 == init + [x];
      assert s1 + s2 == (s1 + init) + [x];
      NewCountConcat(mem, today, s1, s2, |s2| - 1);
      var tail := if NewCount(u, today, s2, |s2| - 1) <= threshold then [x] else [];
      calc {
        Notified(mem, today, threshold, s1 + s2);
        { NotifiedStep(mem, today, threshold, s1 + init, x); }
        Notified(mem, today, threshold, s1 + init) + tail;
        { NotifiedConcat(mem, today, threshold, s1, init); }
        (Notified(mem, today, threshold, s1) + Notified(u, today, threshold, init)) + tail;
        { AppendAssoc(Notified(mem, today, threshold, s1), Notified(u, today, threshold, init), tail); }
        Notified(mem, today, threshold, s1) + (Notified(u, today, threshold, init) + tail);
        { NotifiedStep(u, today, threshold, init, x); }
        Notified(mem, today, threshold, s1) + Notified(u, today, threshold, s2);
      }
    }
  }

  lemma AppendAssoc(a: seq<string>, b: seq<string>, c: seq<string>)
    ensures (a + b) + c == a + (b + c)
  {
  }

  /** An entry of the saved memory, key by key. */
  lemma UpdatedAt(mem: map<string, Entry>, today: string, sigs: seq<string>, k: string)
    ensures k in Updated(mem, today, sigs) <==> k in sigs || (k in mem && DatedToday(mem[k], today))
    ensures k in sigs ==> Updated(mem, today, sigs)[k] == Record(Num(Carry(mem, today, k) + multiset(sigs)[k]), Some(today))
    ensures k !in sigs && k in mem && DatedToday(mem[k], today) ==> Updated(mem, today, sigs)[k] == mem[k]
  {
  }

  lemma RaisesConcat(mem: map<string, Entry>, today: string, s1: seq<string>, s2: seq<string>)
    requires !Raises(mem, today, s1)
    ensures Raises(Updated(mem, today, s1), today, s2) <==> Raises(mem, today, s1 + s2)
  {
    var u := Updated(mem, today, s1);
    if Raises(u, today, s2) {
      if k :| k in s2 && Troubled(u, today, k) {
        UpdatedAt(mem, today, s1, k);
        assert k !in s1 && Troubled(mem, today, k) && k in s1 + s2;
      } else {
        assert false;
      }
    }
    if Raises(mem, today, s1 + s2) {
      if k :| k in s1 + s2 && Troubled(mem, today, k) {
        assert k !in s1;
        assert k in s2;
        assert mem[k].Record?;
        UpdatedAt(mem, today, s1, k);
        assert Troubled(u, today, k);
      } else {
        assert false;
      }
    }
  }

  lemma UpdatedConcat(mem: map<string, Entry>, today: string, s1: seq<string>, s2: seq<string>)
    ensures Updated(Updated(mem, today, s1), today, s2) == Updated(mem, today, s1 + s2)
  {
    var l, r := Updated(Updated(mem, today, s1), today, s2), Updated(mem, today, s1 + s2);
    forall k ensures (k in l <==> k in r) && (k in l ==> l[k] == r[k]) {
      UpdatedConcatAt(mem, today, s1, s2, k);
    }
  }

  lemma UpdatedConcatAt(mem: map<string, Entry>, today: string, s1: seq<string>, s2: seq<string>, k: string)
    ensures var l, r := Updated(Updated(mem, today, s1), today, s2), Updated(mem, today, s1 + s2);
            (k in l <==> k in r) && (k in l ==> l[k] == r[k])
  {
    var u1 := Updated(mem, today, s1);
    UpdatedSavedAs(mem, today, s1, k);
    UpdatedSavedAs(u1, today, s2, k);
    UpdatedSavedAs(mem, today, s1 + s2, k);
    SavedConcat(mem, u1, Updated(u1, today, s2), Updated(mem, today, s1 + s2), today, s1, s2, k);
  }

  /** What the saved memory `u` holds at key `k` after the batch `sigs` on the loaded `mem`. */
  predicate SavedAs(u: map<string, Entry>, mem: map<string, Entry>, today: string, sigs: seq<string>, k: string)
  {
    && (k in u <==> k in sigs || (k in mem && DatedToday(mem[k], today)))
    && (k in sigs ==> u[k] == Record(Num(Carry(mem, today, k) + multiset(sigs)[k]), Some(today)))
    && (k !in sigs && k in mem && DatedToday(mem[k], today) ==> u[k] == mem[k])
  }

  lemma UpdatedSavedAs(mem: map<string, Entry>, today: string, sigs: seq<string>, k: string)
    ensures SavedAs(Updated(mem, today, sigs), mem, today, sigs, k)
  {
    UpdatedAt(mem, today, sigs, k);
  }

  /** Saving after `s1` and then after `s2` leaves at each key what saving after both does. */
  lemma SavedConcat(mem: map<string, Entry>, u1: map<string, Entry>, l: map<string, Entry>, r: map<string, Entry>,
                    today: string, s1: seq<string>, s2: seq<string>, k: string)
    requires SavedAs(u1, mem, today, s1, k)
    requires SavedAs(l, u1, today, s2, k)
    requires SavedAs(r, mem, today, s1 + s2, k)
    ensures (k in l <==> k in r) && (k in l ==> l[k] == r[k])
  {
    MultisetConcat(s1, s2, k);
  }

  /** Sightings in two batches add up, and a signature is in the joined batch exactly when it
      is in one of them. */
  lemma MultisetConcat(s1: seq<string>, s2: seq<string>, k: string)
    ensures multiset(s1 + s2)[k] == multiset(s1)[k] + multiset(s2)[k]
    ensures k in s1 + s2 <==> k in s1 || k in s2
    ensures k !in s2 ==> multiset(s2)[k] == 0
  {
    assert multiset(s1 + s2) == multiset(s1) + multiset(s2);
  }

  /** Two runs on the same day behave as one run over both batches: the second run, given the
      memory the first one saved, sends what the single run would send after the first
      run's messages, and saves the same memory. */
  lemma SplitBatches(m1: seq<string>, m2: seq<string>, mem: map<string, Entry>, today: string, threshold: int)
    requires FilterSpec(m1, mem, today, threshold).Filtered?
    ensures var first := FilterSpec(m1, mem, today, threshold);
            FilterSpec(m1 + m2, mem, today, threshold)
            == match FilterSpec(m2, first.updated, today, threshold)
               case Raised => Raised
               case Filtered(sent, updated) => Filtered(first.toNotify + sent, updated)
  {
    var s1, s2 := Signatures(m1), Signatures(m2);
    SignaturesConcat(m1, m2);
    RaisesConcat(mem, today, s1, s2);
    NotifiedConcat(mem, today, threshold, s1, s2);
    UpdatedConcat(mem, today, s1, s2);
  }

  /** How many of `n` sightings are sent when the day's count starts at `carry`: the sightings
      whose count stays within the threshold. */
  function SentTimes(carry: int, threshold: int, n: nat): (t: nat)
    ensures t <= n
  {
    if threshold - carry <= 0 then 0 else if threshold - carry >= n then n else threshold - carry
  }

  /** Each signature is sent once per sighting until its count passes the threshold, and
      never again that batch. */
  lemma {:induction false} NotifiedCount(mem: map<string, Entry>, today: string, threshold: int, sigs: seq<string>, k: string)
    ensures multiset(Notified(mem, today, threshold, sigs))[k]
         == SentTimes(Carry(mem, today, k), threshold, multiset(sigs)[k])
  {
    if sigs != [] {
      var init, x := sigs[..|sigs| - 1], sigs[|sigs| - 1];
      NotifiedCount(mem, today, threshold, init, k);
      Snoc(sigs);
      NotifiedSnoc(mem, today, threshold, init, x);
      SentCountStep(Notified(mem, today, threshold, init), init, x, k,
                    Carry(mem, today, k), Carry(mem, today, x), threshold);
    }
  }

  /** The counting step of `NotifiedCount`, over plain values: one more sighting of `x` adds
      one send of `x` exactly when its count stays within the threshold. */
  lemma SentCountStep(before: seq<string>, init: seq<string>, x: string, k: string, ck: int, cx: int, threshold: int)
    requires k == x ==> ck == cx
    requires multiset(before)[k] == SentTimes(ck, threshold, multiset(init)[k])
    ensures multiset(before + (if cx + multiset(init)[x] + 1 <= threshold then [x] else []))[k]
         == SentTimes(ck, threshold, multiset(init + [x])[k])
  {
    var tail := if cx + multiset(init)[x] + 1 <= threshold then [x] else [];
    assert multiset(before + tail) == multiset(before) + multiset(tail);
    assert multiset(init + [x]) == multiset(init) + multiset{x};
    if k == x {
      SentTimesStep(ck, threshold, multiset(init)[x] + 1);
    }
  }

  lemma Snoc(sigs: seq<string>)
    requires sigs != []
    ensures sigs == sigs[..|sigs| - 1] + [sigs[|sigs| - 1]]
  {
  }

  /** With the default threshold of 2 and no memory, the first and second sightings of a
      message are sent and the third is suppressed; the saved count is 3. */
  lemma ThirdSightingSuppressed(s: string, today: string)
    requires s != [] && Strip(s) == s
    ensures FilterSpec([s, s, s], map[], today, 2)
         == Filtered([s, s], map[s := Record(Num(3), Some(today))])
  {
    var m, empty: map<string, Entry> := Repeat(s, 3), map[];
    ThreeTimes(s);
    RepeatedSignatures(s, 3);
    RepeatedSightings(empty, today, 2, s, 3);
    ThreeUpdated(s, today);
    NoRaise(m, empty, today, 2, m);
  }

  /** The memory after `c` same-day sightings of `s` and nothing else. */
  function Seen(s: string, today: string, c: nat): map<string, Entry>
  {
    if c == 0 then map[] else map[s := Record(Num(c), Some(today))]
  }

  /** A call with the single message `s` after `c` earlier sightings today: it is sent while
      its count `c + 1` stays within the threshold, and the saved count becomes `c + 1`. */
  lemma NextSighting(s: string, today: string, threshold: int, c: nat)
    requires s != [] && Strip(s) == s
    ensures FilterSpec([s], Seen(s, today, c), today, threshold)
         == Filtered(if c + 1 <= threshold then [s] else [], Seen(s, today, c + 1))
  {
    SingleSignature(s);
    SeenNoRaise(s, today, c);
    NoRaise([s], Seen(s, today, c), today, threshold, [s]);
    SeenNotified(s, today, threshold, c);
    SeenUpdated(s, today, c);
  }

  lemma SingleSignature(s: string)
    requires s != [] && Strip(s) == s
    ensures Signatures([s]) == [s]
  {
    assert [s][..0] == [];
  }

  lemma SeenNoRaise(s: string, today: string, c: nat)
    ensures !Raises(Seen(s, today, c), today, [s])
  {
  }

  lemma SeenNotified(s: string, today: string, threshold: int, c: nat)
    ensures Notified(Seen(s, today, c), today, threshold, [s]) == if c + 1 <= threshold then [s] else []
  {
    NotifiedSnoc(Seen(s, today, c), today, threshold, [], s);
    assert [] + [s] == [s];
  }

  lemma SeenUpdated(s: string, today: string, c: nat)
    ensures Updated(Seen(s, today, c), today, [s]) == Seen(s, today, c + 1)
  {
    var mem := Seen(s, today, c);
    var u := Updated(mem, today, [s]);
    forall k ensures k in u <==> k == s {
      UpdatedAt(mem, today, [s], k);
    }
    UpdatedAt(mem, today, [s], s);
    assert multiset([s])[s] == 1;
  }

  /** With the default threshold of 2, a message reported on three cycles of one day is sent on
      the first two and suppressed on the third, each cycle reading the memory the one before
      saved. */
  lemma ThirdCycleSuppressed(s: string, today: string)
    requires s != [] && Strip(s) == s
    ensures FilterSpec([s], map[], today, 2) == Filtered([s], Seen(s, today, 1))
    ensures FilterSpec([s], Seen(s, today, 1), today, 2) == Filtered([s], Seen(s, today, 2))
    ensures FilterSpec([s], Seen(s, today, 2), today, 2) == Filtered([], map[s := Record(Num(3), Some(today))])
  {
    FirstSighting(s, today, 2);
    NextSighting(s, today, 2, 1);
    NextSighting(s, today, 2, 2);
    assert Seen(s, today, 3) == map[s := Record(Num(3), Some(today))];
  }

  /** With no memory, a message is sent on its first sighting when the threshold allows one. */
  lemma FirstSighting(s: string, today: string, threshold: int)
    requires s != [] && Strip(s) == s
    ensures FilterSpec([s], map[], today, threshold) == Filtered(if 1 <= threshold then [s] else [], Seen(s, today, 1))
  {
    var empty: map<string, Entry> := map[];
    SingleSignature(s);
    NoRaise([s], empty, today, threshold, [s]);
    NotifiedSnoc(empty, today, threshold, [], s);
    assert [] + [s] == [s];
    var u := Updated(empty, today, [s]);
    forall k ensures k in u <==> k == s {
      UpdatedAt(empty, today, [s], k);
    }
    UpdatedAt(empty, today, [s], s);
    assert multiset([s])[s] == 1;
  }

  /** `n` copies of `s`. */
  function Repeat(s: string, n: nat): (r: seq<string>)
    ensures |r| == n
  {
    if n == 0 then [] else Repeat(s, n - 1) + [s]
  }

  lemma ThreeTimes(s: string)
    ensures Repeat(s, 3) == [s, s, s] && Repeat(s, 2) == [s, s]
  {
    assert Repeat(s, 1) == [s];
  }

  /** A batch of one stripped message repeated is its own list of signatures. */
  lemma {:induction false} RepeatedSignatures(s: string, n: nat)
    requires s != [] && Strip(s) == s
    ensures Signatures(Repeat(s, n)) == Repeat(s, n)
  {
    if n > 0 {
      RepeatedSignatures(s, n - 1);
      assert Repeat(s, n)[..n - 1] == Repeat(s, n - 1);
    }
  }

  /** A signature sighted `n` times in one batch is sent for as many sightings as keep its
      count within the threshold, and only those. */
  lemma RepeatedSightings(mem: map<string, Entry>, today: string, threshold: int, s: string, n: nat)
    ensures Notified(mem, today, threshold, Repeat(s, n)) == Repeat(s, SentTimes(Carry(mem, today, s), threshold, n))
  {
    var x := Notified(mem, today, threshold, Repeat(s, n));
    forall k | k in x ensures k == s {
      NotifiedAmongSignatures(mem, today, threshold, Repeat(s, n), k);
      RepeatMember(s, n, k);
    }
    AllSame(x, s);
    NotifiedCount(mem, today, threshold, Repeat(s, n), s);
    RepeatCount(s, n);
  }

  lemma {:induction false} RepeatMember(s: string, n: nat, k: string)
    requires k in Repeat(s, n)
    ensures k == s
  {
    if n > 0 && k != s {
      assert k in Repeat(s, n - 1);
      RepeatMember(s, n - 1, k);
    }
  }

  /** A list holding nothing but `s` is `s` repeated, and holds `s` as often as it is long. */
  lemma {:induction false} AllSame(x: seq<string>, s: string)
    requires forall k :: k in x ==> k == s
    ensures x == Repeat(s, |x|) && multiset(x)[s] == |x|
  {
    if x != [] {
      var init, last := x[..|x| - 1], x[|x| - 1];
      assert x == init + [last];
      assert last in x;
      forall k | k in init ensures k == s {
        assert k in x;
      }
      AllSame(init, s);
      assert multiset(x) == multiset(init) + multiset{last};
    }
  }

  /** One more sighting of `s` is sent when its count, counting every earlier sighting, stays
      within the threshold. */
  lemma NotifiedSnoc(mem: map<string, Entry>, today: string, threshold: int, done: seq<string>, s: string)
    ensures Notified(mem, today, threshold, done + [s])
         == Notified(mem, today, threshold, done)
            + (if Carry(mem, today, s) + multiset(done)[s] + 1 <= threshold then [s] else [])
  {
    NotifiedStep(mem, today, threshold, done, s);
    NewCountLast(mem, today, done, s);
  }

  lemma SentTimesStep(carry: int, threshold: int, n: nat)
    requires n > 0
    ensures SentTimes(carry, threshold, n) == SentTimes(carry, threshold, n - 1) + (if carry + n <= threshold then 1 else 0)
  {
  }

  lemma RepeatSnoc(s: string, n: nat)
    ensures Repeat(s, n) + [s] == Repeat(s, n + 1)
  {
  }

  lemma {:induction false} RepeatCount(s: string, n: nat)
    ensures multiset(Repeat(s, n))[s] == n
  {
    if n > 0 {
      RepeatCount(s, n - 1);
      RepeatSnoc(s, n - 1);
    }
  }

  lemma ThreeUpdated(s: string, today: string)
    ensures Updated(map[], today, [s, s, s]) == map[s := Record(Num(3), Some(today))]
  {
    var m, empty: map<string, Entry> := [s, s, s], map[];
    var u := Updated(empty, today, m);
    forall k ensures k in u <==> k == s {
      UpdatedAt(empty, today, m, k);
    }
    UpdatedAt(empty, today, m, s);
    assert multiset(m)[s] == 3;
  }

  /** The call on a batch that does not raise. */
  lemma NoRaise(messages: seq<string>, mem: map<string, Entry>, today: string, threshold: int, sigs: seq<string>)
    requires Signatures(messages) == sigs && !Raises(mem, today, sigs)
    ensures FilterSpec(messages, mem, today, threshold)
         == Filtered(Notified(mem, today, threshold, sigs), Updated(mem, today, sigs))
  {
  }

  /** Same carried counts, same notifications. */
  lemma {:induction false} NotifiedSameCarry(m1: map<string, Entry>, m2: map<string, Entry>, today: string,
                                             threshold: int, sigs: seq<string>)
    requires forall k :: Carry(m1, today, k) == Carry(m2, today, k)
    ensures Notified(m1, today, threshold, sigs) == Notified(m2, today, threshold, sigs)
  {
    if sigs != [] {
      NotifiedSameCarry(m1, m2, today, threshold, sigs[..|sigs| - 1]);
    }
  }

  /** A memory with only dict entries from other days acts like an empty one. */
  lemma StaleMemory(messages: seq<string>, mem: map<string, Entry>, today: string, threshold: int)
    requires forall k :: k in mem ==> mem[k].Record? && !DatedToday(mem[k], today)
    ensures FilterSpec(messages, mem, today, threshold) == FilterSpec(messages, map[], today, threshold)
  {
    var sigs := Signatures(messages);
    assert !Raises(mem, today, sigs);
    NotifiedSameCarry(mem, map[], today, threshold, sigs);
    UpdatedStale(mem, today, sigs);
  }

  lemma UpdatedStale(mem: map<string, Entry>, today: string, sigs: seq<string>)
    requires forall k :: k in mem ==> mem[k].Record? && !DatedToday(mem[k], today)
    ensures Updated(mem, today, sigs) == Updated(map[], today, sigs)
  {
    var l, r := Updated(mem, today, sigs), Updated(map[], today, sigs);
    forall k ensures k in l <==> k in r {
      UpdatedAt(mem, today, sigs, k);
      UpdatedAt(map[], today, sigs, k);
    }
    forall k | k in l ensures l[k] == r[k] {
      UpdatedAt(mem, today, sigs, k);
      UpdatedAt(map[], today, sigs, k);
    }
  }

  /** The memory saved on an earlier day is forgotten: the counts start again from zero. */
  lemma NewDayForgets(messages: seq<string>, earlier: map<string, Entry>, day: string, seen: seq<string>,
                      today: string, threshold: int)
    requires day != today
    ensures FilterSpec(messages, Updated(earlier, day, seen), today, threshold)
         == FilterSpec(messages, map[], today, threshold)
  {
    UpdatedShape(earlier, day, seen);
    StaleMemory(messages, Updated(earlier, day, seen), today, threshold);
  }

  /** Every signature is the stripped text of a message of the batch. */
  lemma {:induction false} SignatureOrigin(messages: seq<string>, k: string)
    requires k in Signatures(messages)
    ensures exists i :: 0 <= i < |messages| && k == Strip(messages[i])
  {
    var last := |messages| - 1;
    if k in Signatures(messages[..last]) {
      SignatureOrigin(messages[..last], k);
      var i :| 0 <= i < last && k == Strip(messages[..last][i]);
      assert messages[i] == messages[..last][i];
    } else {
      assert k == Strip(messages[last]);
    }
  }

  /** Only signatures of the batch are sent. */
  lemma NotifiedAmongSignatures(mem: map<string, Entry>, today: string, threshold: int, sigs: seq<string>, k: string)
    requires k in Notified(mem, today, threshold, sigs)
    ensures k in sigs
  {
    NotifiedCount(mem, today, threshold, sigs, k);
  }
}
