/**
 Bitstring status lists (W3C Bitstring Status List v1.0, sections 3.3 and 3.4): allocating indices,
 packing revocations into bits, and reading a credential's bit back.
 */
module StatusList {
  import opened Common

  // ---- Bits ------------------------------------------------------------------------------------

  function One(p: int): bv8
    requires 0 <= p < 8
  {
    if p == 0 then 1 else if p == 1 then 2 else if p == 2 then 4 else if p == 3 then 8
    else if p == 4 then 16 else if p == 5 then 32 else if p == 6 then 64 else 128
  }

  function BitOf(b: bv8, p: int): int
    requires 0 <= p < 8
  {
    if b & One(p) != 0 then 1 else 0
  }

  /** The shifts of the publisher and the checker. */
  lemma BitShifts(b: bv8, p: int)
    requires 0 <= p < 8
    ensures One(p) == 1 << p && BitOf(b, p) as bv8 == (b >> p) & 1
  {
    if p == 0 {} else if p == 1 {} else if p == 2 {} else if p == 3 {}
    else if p == 4 {} else if p == 5 {} else if p == 6 {} else {}
  }

  lemma SetOne(b: bv8, p: int, q: int)
    requires 0 <= p < 8 && 0 <= q < 8
    ensures BitOf(b | One(p), q) == if p == q then 1 else BitOf(b, q)
  {
  }

  /** Bit `i` of a bitstring, most significant bit of each byte first. */
  function Bit(bytes: seq<bv8>, i: int): int
    requires 0 <= i < 8 * |bytes|
  {
    BitOf(bytes[i / 8], 7 - i % 8)
  }

  // ---- Publishing ------------------------------------------------------------------------------

  datatype Entry = Entry(index: int, revoked: bool, suspended: bool)

  predicate Flagged(entries: seq<Entry>, i: int) {
    exists e :: e in entries && e.index == i && (e.revoked || e.suspended)
  }

  function MaxIndex(entries: seq<Entry>): (m: int)
    ensures m >= -1 && (forall e :: e in entries ==> e.index <= m)
    ensures m >= 0 ==> exists e :: e in entries && e.index == m
  {
    if entries == [] then -1
    else
      var before, last := MaxIndex(entries[..|entries| - 1]), entries[|entries| - 1].index;
      assert entries == entries[..|entries| - 1] + [entries[|entries| - 1]];
      if last > before then last else before
  }

  function ByteLength(entries: seq<Entry>): nat {
    if MaxIndex(entries) < 8 then 1 else (MaxIndex(entries) + 8) / 8
  }

  /** At least one byte, room for every index, and no byte more than the greatest one needs. */
  lemma ByteLengthExactly(entries: seq<Entry>)
    ensures ByteLength(entries) >= 1 && forall e :: e in entries ==> e.index < 8 * ByteLength(entries)
    ensures ByteLength(entries) > 1 ==> exists e :: e in entries && e.index >= 8 * (ByteLength(entries) - 1)
  {
    if ByteLength(entries) > 1 {
      var e :| e in entries && e.index == MaxIndex(entries);
    }
  }

  /** Index 0 is the most significant bit of the first byte. */
  lemma MostSignificantFirst(bytes: seq<bv8>, i: nat)
    requires i < 8 * |bytes|
    ensures Bit(bytes, i) == 1 <==> bytes[i / 8] & (0x80 >> (i % 8)) != 0
  {
    var p := i % 8;
    if p == 0 {} else if p == 1 {} else if p == 2 {} else if p == 3 {}
    else if p == 4 {} else if p == 5 {} else if p == 6 {} else {}
  }

  /** The bitstring of a list of entries: just long enough, each bit set exactly when flagged. */
  predicate Encodes(bits: seq<bv8>, entries: seq<Entry>) {
    && |bits| == ByteLength(entries)
    && forall i :: 0 <= i < 8 * |bits| ==> (Bit(bits, i) == 1 <==> Flagged(entries, i))
  }

  /** ORs one bit into the buffer; a write outside it is lost. */
  method SetBit(buffer: array<bv8>, index: int)
    modifies buffer
    ensures forall i :: 0 <= i < 8 * buffer.Length ==>
              Bit(buffer[..], i) == if i == index then 1 else Bit(old(buffer[..]), i)
  {
    var byteIndex, bitIndex := index / 8, 7 - index % 8;
    if 0 <= byteIndex < buffer.Length {
      ghost var before := buffer[..];
      buffer[byteIndex] := buffer[byteIndex] | One(bitIndex);
      forall i | 0 <= i < 8 * buffer.Length
        ensures Bit(buffer[..], i) == if i == index then 1 else Bit(before, i)
      {
        if i / 8 == byteIndex { SetOne(before[byteIndex], bitIndex, 7 - i % 8); }
      }
    }
  }

  lemma FlaggedNext(entries: seq<Entry>, n: nat, i: int)
    requires n < |entries|
    ensures Flagged(entries[..n + 1], i) <==>
            Flagged(entries[..n], i) || (entries[n].index == i && (entries[n].revoked || entries[n].suspended))
  {
    assert entries[..n + 1] == entries[..n] + [entries[n]];
  }

  method BuildEncodedStatusList(entries: seq<Entry>) returns (bits: seq<bv8>)
    ensures Encodes(bits, entries)
  {
    var maxIndex := -1;
    for n := 0 to |entries|
      invariant maxIndex == MaxIndex(entries[..n])
    {
      assert entries[..n + 1][..n] == entries[..n];
      if entries[n].index >= 0 && entries[n].index > maxIndex {
        maxIndex := entries[n].index;
      }
    }
    assert entries[..|entries|] == entries;
    var bitstring := new bv8[if maxIndex < 8 then 1 else (maxIndex + 8) / 8](_ => 0);
    for n := 0 to |entries|
      invariant forall i :: 0 <= i < 8 * bitstring.Length ==> (Bit(bitstring[..], i) == 1 <==> Flagged(entries[..n], i))
    {
      forall i
        ensures Flagged(entries[..n + 1], i) <==>
                Flagged(entries[..n], i) || (entries[n].index == i && (entries[n].revoked || entries[n].suspended))
      {
        FlaggedNext(entries, n, i);
      }
      if entries[n].revoked || entries[n].suspended {
        SetBit(bitstring, entries[n].index);
      }
    }
    bits := bitstring[..];
  }

  // ---- Checking --------------------------------------------------------------------------------

  datatype Purpose = Revocation | Suspension

  datatype Status = Status(revoked: bool, suspended: bool)

  /** `None` past the end of the bitstring. */
  function DecodeBitAtIndex(bits: seq<bv8>, index: nat): Option<int> {
    if index / 8 >= |bits| then None else Some(BitOf(bits[index / 8], 7 - index % 8))
  }

  /** `None` is a list that could not be fetched; it and an index out of range fail closed. */
  function CheckStatus(list: Option<seq<bv8>>, index: nat, purpose: Purpose): Status {
    var closed := Status(purpose.Revocation?, purpose.Suspension?);
    if list.None? then closed
    else
      match DecodeBitAtIndex(list.value, index)
      case None => closed
      case Some(b) => Status(purpose.Revocation? && b == 1, purpose.Suspension? && b == 1)
  }

  /** Reading a freshly built list: set exactly when flagged, or past its end. */
  lemma PublishThenCheck(entries: seq<Entry>, bits: seq<bv8>, index: nat, purpose: Purpose)
    requires Encodes(bits, entries)
    ensures
      var on := index >= 8 * ByteLength(entries) || Flagged(entries, index);
      CheckStatus(Some(bits), index, purpose) == Status(purpose.Revocation? && on, purpose.Suspension? && on)
  {
    if index < 8 * |bits| { assert Bit(bits, index) == BitOf(bits[index / 8], 7 - index % 8); }
  }

  /** A list that cannot be had counts as the status it is asked for, revoked or suspended, and as nothing else. */
  lemma UnavailableFailsClosed(index: nat)
    ensures CheckStatus(None, index, Revocation) == Status(true, false)
    ensures CheckStatus(None, index, Suspension) == Status(false, true)
  {
  }

  // ---- Any run of issuing and revoking ---------------------------------------------------------

  datatype StatusRow = StatusRow(id: string, index: nat)

  /** `counter` is the stored next index; `given` remembers what each issuing call was given. */
  datatype Issuer = Issuer(
    counter: Option<nat>, given: map<string, nat>, issued: map<string, bool>, rows: seq<StatusRow>)

  /** The three writes of issuing, each its own statement, and revocation. A crash is a missing step. */
  datatype Step = Allocate(id: string) | StoreCredential(id: string) | StoreStatus(id: string) | Revoke(id: string)

  predicate HasRow(s: Issuer, id: string) {
    exists n :: 0 <= n < |s.rows| && s.rows[n].id == id
  }

  function NextIndex(counter: Option<nat>): nat {
    if counter.Some? then counter.value else 0
  }

  function Next(s: Issuer, step: Step): Option<Issuer> {
    match step
    case Allocate(id) =>
      if id in s.given then None
      else
        var index := NextIndex(s.counter);
        Some(s.(counter := Some(index + 1), given := s.given[id := index]))
    case StoreCredential(id) =>
      if id !in s.given || id in s.issued then None else Some(s.(issued := s.issued[id := false]))
    case StoreStatus(id) =>
      if id !in s.given || id !in s.issued || HasRow(s, id) then None
      else Some(s.(rows := s.rows + [StatusRow(id, s.given[id])]))
    case Revoke(id) => if id !in s.issued || s.issued[id] then None else Some(s.(issued := s.issued[id := true]))
  }

  function Exec(steps: seq<Step>): Option<Issuer> {
    if steps == [] then Some(Issuer(None, map[], map[], []))
    else
      match Exec(steps[..|steps| - 1])
      case None => None
      case Some(s) => Next(s, steps[|steps| - 1])
  }

  ghost predicate IndicesSound(s: Issuer) {
    && (forall id :: id in s.given ==> s.given[id] < NextIndex(s.counter))
    && (forall a, b :: a in s.given && b in s.given && s.given[a] == s.given[b] ==> a == b)
  }

  predicate RowSound(s: Issuer, r: StatusRow) {
    r.id in s.given && s.given[r.id] == r.index && r.id in s.issued
  }

  ghost predicate Sound(s: Issuer) {
    IndicesSound(s) && forall n :: 0 <= n < |s.rows| ==> RowSound(s, s.rows[n])
  }

  lemma IndicesStep(s: Issuer, step: Step)
    requires IndicesSound(s) && Next(s, step).Some?
    ensures IndicesSound(Next(s, step).value)
  {
  }

  lemma RowStep(s: Issuer, step: Step, r: StatusRow)
    requires RowSound(s, r) && Next(s, step).Some?
    ensures RowSound(Next(s, step).value, r)
  {
  }

  lemma SoundStep(s: Issuer, step: Step)
    requires Sound(s) && Next(s, step).Some?
    ensures Sound(Next(s, step).value)
  {
    var s' := Next(s, step).value;
    IndicesStep(s, step);
    forall n | 0 <= n < |s'.rows|
      ensures RowSound(s', s'.rows[n])
    {
      if n < |s.rows| {
        assert s'.rows[n] == s.rows[n];
        RowStep(s, step, s.rows[n]);
      }
    }
  }

  lemma {:induction false} AlwaysSound(steps: seq<Step>)
    requires Exec(steps).Some?
    ensures Sound(Exec(steps).value)
  {
    if steps != [] {
      AlwaysSound(steps[..|steps| - 1]);
      SoundStep(Exec(steps[..|steps| - 1]).value, steps[|steps| - 1]);
    }
  }

  /** Allocated indices never repeat, over any interleaving of issuing calls. */
  lemma IndicesNeverRepeat(steps: seq<Step>, a: string, b: string)
    requires Exec(steps).Some? && a in Exec(steps).value.given && b in Exec(steps).value.given && a != b
    ensures Exec(steps).value.given[a] != Exec(steps).value.given[b]
  {
    AlwaysSound(steps);
  }

  lemma {:induction false} CounterCounts(steps: seq<Step>)
    requires Exec(steps).Some?
    ensures NextIndex(Exec(steps).value.counter) == |Exec(steps).value.given|
  {
    if steps != [] { CounterCounts(steps[..|steps| - 1]); }
  }

  /** Indices are given out in order, from zero: each call gets the number of calls before it. */
  lemma AllocatedInOrder(steps: seq<Step>, id: string)
    requires Exec(steps).Some? && Exec(steps + [Allocate(id)]).Some?
    ensures id in Exec(steps + [Allocate(id)]).value.given
    ensures Exec(steps + [Allocate(id)]).value.given[id] == |Exec(steps).value.given|
  {
    assert (steps + [Allocate(id)])[..|steps|] == steps;
    CounterCounts(steps);
  }

  /** The entries the publisher selects. */
  function Published(s: Issuer): seq<Entry> {
    MapSeq((r: StatusRow) => Entry(r.index, r.id in s.issued && s.issued[r.id], false), s.rows)
  }

  lemma FlaggedRow(s: Issuer, n: nat)
    requires Sound(s) && n < |s.rows|
    ensures Flagged(Published(s), s.rows[n].index) <==> s.issued[s.rows[n].id]
  {
    var entries := Published(s);
    if e :| e in entries && e.index == s.rows[n].index && e.revoked {
      var m :| 0 <= m < |entries| && entries[m] == e;
      assert RowSound(s, s.rows[m]) && RowSound(s, s.rows[n]);
    }
    assert RowSound(s, s.rows[n]);
    if s.issued[s.rows[n].id] { assert entries[n] in entries; }
  }

  /** After any run, a credential's bit in a fresh list says revoked exactly when it was revoked. */
  lemma RevokedExactly(steps: seq<Step>, n: nat, bits: seq<bv8>)
    requires Exec(steps).Some? && n < |Exec(steps).value.rows| && Encodes(bits, Published(Exec(steps).value))
    ensures
      var s := Exec(steps).value;
      && s.rows[n].id in s.issued
      && CheckStatus(Some(bits), s.rows[n].index, Revocation) == Status(s.issued[s.rows[n].id], false)
  {
    var s := Exec(steps).value;
    AlwaysSound(steps);
    FlaggedRow(s, n);
    var entries := Published(s);
    assert entries[n] in entries;
    PublishThenCheck(entries, bits, s.rows[n].index, Revocation);
  }

  lemma MapsAfter(s: Issuer, step: Step, id: string)
    requires Next(s, step).Some?
    ensures id in Next(s, step).value.given <==> id in s.given || step == Allocate(id)
    ensures id in Next(s, step).value.issued <==> id in s.issued || step == StoreCredential(id)
    ensures id in Next(s, step).value.issued ==>
              (Next(s, step).value.issued[id] <==> (id in s.issued && s.issued[id]) || step == Revoke(id))
  {
  }

  lemma OnlyIssuedAreRevoked(s: Issuer, step: Step, id: string)
    requires Next(s, step).Some? && step == Revoke(id)
    ensures id in s.issued && id in Next(s, step).value.issued
  {
  }

  lemma InSnoc(steps: seq<Step>, last: Step, step: Step)
    ensures step in steps + [last] <==> step in steps || step == last
  {
  }

  /** What a run has allocated, issued, listed and revoked is what its steps say. */
  lemma {:induction false} HistoryExactly(steps: seq<Step>, id: string)
    requires Exec(steps).Some?
    ensures id in Exec(steps).value.given <==> Allocate(id) in steps
    ensures id in Exec(steps).value.issued <==> StoreCredential(id) in steps
    ensures HasRow(Exec(steps).value, id) <==> StoreStatus(id) in steps
    ensures id in Exec(steps).value.issued && Exec(steps).value.issued[id] <==> Revoke(id) in steps
  {
    if steps != [] {
      var before, last := steps[..|steps| - 1], steps[|steps| - 1];
      assert steps == before + [last];
      HistoryExactly(before, id);
      InSnoc(before, last, Allocate(id));
      InSnoc(before, last, StoreCredential(id));
      InSnoc(before, last, StoreStatus(id));
      InSnoc(before, last, Revoke(id));
      var s := Exec(before).value;
      RowsAfter(s, last, id);
      MapsAfter(s, last, id);
      if last == Revoke(id) { OnlyIssuedAreRevoked(s, last, id); }
    }
  }

  lemma RowsAfter(s: Issuer, step: Step, id: string)
    requires Next(s, step).Some?
    ensures HasRow(Next(s, step).value, id) <==> HasRow(s, id) || step == StoreStatus(id)
  {
    var s' := Next(s, step).value;
    if n :| 0 <= n < |s.rows| && s.rows[n].id == id { assert s'.rows[n].id == id; }
    if step == StoreStatus(id) { assert s'.rows[|s.rows|].id == id; }
  }

  /** So a fresh list says revoked of a listed credential exactly when the run revoked it. */
  lemma RevokedByRun(steps: seq<Step>, n: nat, bits: seq<bv8>)
    requires Exec(steps).Some? && n < |Exec(steps).value.rows| && Encodes(bits, Published(Exec(steps).value))
    ensures
      var row := Exec(steps).value.rows[n];
      CheckStatus(Some(bits), row.index, Revocation) == Status(Revoke(row.id) in steps, false)
  {
    RevokedExactly(steps, n, bits);
    HistoryExactly(steps, Exec(steps).value.rows[n].id);
  }

  /** Revoking one credential changes no other credential's status. */
  lemma RevokingIsIsolated(steps: seq<Step>, id: string, n: nat, before: seq<bv8>, after: seq<bv8>)
    requires Exec(steps + [Revoke(id)]).Some? && Exec(steps).Some?
    requires n < |Exec(steps).value.rows| && Exec(steps).value.rows[n].id != id
    requires Encodes(before, Published(Exec(steps).value)) &&
             Encodes(after, Published(Exec(steps + [Revoke(id)]).value))
    ensures CheckStatus(Some(after), Exec(steps).value.rows[n].index, Revocation)
         == CheckStatus(Some(before), Exec(steps).value.rows[n].index, Revocation)
  {
    assert (steps + [Revoke(id)])[..|steps|] == steps;
    RevokedExactly(steps, n, before);
    RevokedExactly(steps + [Revoke(id)], n, after);
  }

  /** The stored counter: an upsert that returns the value it had. */
  class IndexCounter {
    var stored: Option<nat>

    constructor ()
      ensures stored == None
    {
      stored := None;
    }

    method AllocateStatusListIndex() returns (index: nat)
      modifies this
      ensures index == NextIndex(old(stored)) && stored == Some(index + 1)
    {
      if stored.None? {
        stored := Some(1);
      } else {
        stored := Some(stored.value + 1);
      }
      index := stored.value - 1;
    }
  }
}
