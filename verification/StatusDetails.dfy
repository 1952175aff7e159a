/** The ring of the last 64 status details, and the history it stands for. */
module StatusDetails {

  const DETAILS: nat := 64
  const U64: nat := 0x1_0000_0000_0000_0000

  /** What the slot `i` of the ring holds after a history: the sequence number and the text of
      the last record that belongs there, or the number no record has yet. */
  function Entry(history: seq<string>, i: nat): (nat, string)
    requires i < DETAILS
  {
    if history == [] then (U64 - 1, "")
    else
      var last := |history| - 1;
      if last % DETAILS == i then (last % U64, history[last]) else Entry(history[..last], i)
  }

  /** What is read under a sequence number after a history. */
  function ReadAt(history: seq<string>, number: nat): string {
    var (kept, text) := Entry(history, number % DETAILS);
    if kept == number then text else ""
  }

  class Details {
    var next: nat
    const entries: array<(nat, string)>
    ghost var history: seq<string>

    ghost predicate Valid()
      reads this, entries
    {
      && entries.Length == DETAILS
      && next == |history| % U64
      && forall i :: 0 <= i < DETAILS ==> entries[i] == Entry(history, i)
    }

    constructor ()
      ensures Valid() && history == [] && fresh(entries)
    {
      next := 0;
      entries := new (nat, string)[DETAILS](_ => (U64 - 1, ""));
      history := [];
    }

    /** Keeps a detail under the next sequence number. */
    method Record(text: string) returns (number: nat)
      requires Valid()
      modifies this, entries
      ensures Valid() && history == old(history) + [text]
      ensures number == |old(history)| % 0x1_0000_0000_0000_0000
    {
      number := next;
      next := if number + 1 == U64 then 0 else number + 1;
      NumberSlot(|history|);
      entries[number % DETAILS] := (number, text);
      assert (history + [text])[..|history|] == history;
      history := history + [text];
    }

    method Read(number: nat) returns (text: string)
      requires Valid() && number < U64
      ensures text == ReadAt(history, number)
    {
      var (kept, found) := entries[number % DETAILS];
      if kept == number { return found; }
      return "";
    }
  }

  lemma NumberSlot(k: nat)
    ensures k % U64 % DETAILS == k % DETAILS
    ensures (k + 1) % U64 == if k % U64 + 1 == U64 then 0 else k % U64 + 1
  {
    var q := k / U64;
    assert k == q * U64 + k % U64;
    assert k == (q * 0x400_0000_0000_0000) * DETAILS + k % U64;
  }

  /** A slot holds the one of the last 64 records that belongs there. */
  lemma {:induction false} EntryIsRecent(history: seq<string>, k: nat)
    requires k < |history| <= k + DETAILS
    ensures Entry(history, k % DETAILS) == (k % U64, history[k])
    decreases |history|
  {
    var last := |history| - 1;
    if last != k {
      SlotsDiffer(k, last);
      EntryIsRecent(history[..last], k);
    }
  }

  lemma SlotsDiffer(k: nat, last: nat)
    requires k < last < k + DETAILS
    ensures k % DETAILS != last % DETAILS
  {
  }

  /** A slot holds a sequence number of one of the last 64 records, or none yet. */
  lemma {:induction false} EntryIsNumber(history: seq<string>, i: nat) returns (k: nat)
    requires i < DETAILS
    ensures || (k < |history| <= k + DETAILS && k % DETAILS == i && Entry(history, i) == (k % U64, history[k]))
            || (Entry(history, i) == (U64 - 1, "") && |history| < DETAILS)
    decreases |history|
  {
    if history == [] {
      k := 0;
    } else {
      var last := |history| - 1;
      if last % DETAILS == i {
        k := last;
      } else if |history| >= DETAILS {
        k := last - (last - i) % DETAILS;
        RecentSlot(last, i);
        EntryIsRecent(history, k);
      } else {
        k := EntryIsNumber(history[..last], i);
      }
    }
  }

  lemma RecentSlot(last: nat, i: nat)
    requires i < DETAILS <= last + 1
    ensures var k := last - (last - i) % DETAILS; 0 <= k <= last < k + DETAILS && k % DETAILS == i
  {
    var k := last - (last - i) % DETAILS;
    var q := (last - i) / DETAILS;
    assert k == i + q * DETAILS;
  }

  /** Exactly what is read: the text of the record of that number among the last 64, and the
      empty string when there is none. */
  lemma ReadMeans(history: seq<string>, number: nat)
    requires number < 0x1_0000_0000_0000_0000
    ensures forall k :: 0 <= k < |history| && |history| <= k + 64 && k % 0x1_0000_0000_0000_0000 == number
              ==> ReadAt(history, number) == history[k]
    ensures (forall k :: 0 <= k < |history| && |history| <= k + 64 ==> k % 0x1_0000_0000_0000_0000 != number)
              ==> ReadAt(history, number) == ""
  {
    forall k | 0 <= k < |history| && |history| <= k + DETAILS && k % U64 == number
      ensures ReadAt(history, number) == history[k]
    {
      EntryIsRecent(history, k);
      NumberSlot(k);
    }
    var k := EntryIsNumber(history, number % DETAILS);
  }

  /** Until 2^64 more details were recorded, a detail is read as its own text while it is among
      the last 64 and as the empty string after that, never as another one. */
  lemma OwnDetailOrNone(history: seq<string>, k: nat)
    requires k < |history| <= k + 0x1_0000_0000_0000_0000
    ensures ReadAt(history, k % 0x1_0000_0000_0000_0000) == if |history| <= k + 64 then history[k] else ""
  {
    ReadMeans(history, k % U64);
    if |history| > k + DETAILS {
      forall j | 0 <= j < |history| && |history| <= j + DETAILS ensures j % U64 != k % U64 {
        NumbersDiffer(k, j);
      }
    }
  }

  lemma NumbersDiffer(k: nat, j: nat)
    requires k < j < k + U64
    ensures j % U64 != k % U64
  {
  }

  /** The bound is exact: the detail recorded 2^64 after another is read under its number. */
  lemma NumberComesBack(history: seq<string>, k: nat)
    requires |history| == k + 0x1_0000_0000_0000_0000 + 1
    ensures ReadAt(history, k % 0x1_0000_0000_0000_0000) == history[k + 0x1_0000_0000_0000_0000]
  {
    assert (k + U64) % U64 == k % U64;
    ReadMeans(history, k % U64);
  }
}
