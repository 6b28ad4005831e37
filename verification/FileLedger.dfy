/**
 The append-only ledger file and its recovery: a file cut at any byte reopens
 to exactly the records whose newline had been written.
 */
module FileLedger {
  import opened Prelude
  import opened LineFile

  // ---- specification of recovery -------------------------------------------

  /** The position just after the last newline, or 0. */
  function AfterLastNewline(data: Bytes): (k: nat)
    ensures k <= |data|
  {
    if data == [] then 0
    else if data[|data| - 1] == NL then |data|
    else AfterLastNewline(data[..|data| - 1])
  }

  function Healed(data: Bytes): Bytes {
    data[..AfterLastNewline(data)]
  }

  /** How many of `ts` have their newline among the first `k` bytes. */
  function Surviving<T(!new)>(c: Codec<T>, ts: seq<T>, k: nat): (n: nat)
    ensures n <= |ts|
    ensures |Content(c, ts[..n])| <= k
    ensures n < |ts| ==> k < |Content(c, ts[..n + 1])|
  {
    if ts == [] then 0
    else if |Content(c, ts)| <= k then
      assert ts[..|ts|] == ts;
      |ts|
    else
      var init := ts[..|ts| - 1];
      var n := Surviving(c, init, k);
      assert init[..n] == ts[..n];
      assert n < |init| ==> init[..n + 1] == ts[..n + 1];
      assert n == |init| ==> ts[..n + 1] == ts;
      n
  }

  lemma {:induction false} NoNewlineTail(data: Bytes, torn: Bytes)
    requires NL !in torn
    ensures AfterLastNewline(data + torn) == AfterLastNewline(data)
    decreases |torn|
  {
    if torn == [] {
      assert data + torn == data;
    } else {
      var t := torn[..|torn| - 1];
      assert (data + torn)[..|data + torn| - 1] == data + t;
      assert torn[|torn| - 1] in torn;
      NoNewlineTail(data, t);
    }
  }

  /** A complete file ends in a newline, so healing leaves it alone. */
  lemma {:induction false} HealedComplete<T(!new)>(c: Codec<T>, ts: seq<T>)
    ensures Healed(Content(c, ts)) == Content(c, ts)
  {
    if ts != [] {
      var line := Line(c, ts[|ts| - 1]);
      assert line[|line| - 1] == NL;
    }
  }

  /** A file torn inside its last record heals to the records before it. */
  lemma HealedTorn<T(!new)>(c: Codec<T>, ts: seq<T>, t: T, j: nat)
    requires Faithful(c) && j < |Line(c, t)|
    ensures Healed(Content(c, ts) + Line(c, t)[..j]) == Content(c, ts)
  {
    assert LineOk(c, t);
    var torn := Line(c, t)[..j];
    forall b | b in torn ensures b != NL {
      var i :| 0 <= i < |torn| && torn[i] == b;
      assert torn[i] == c.encode(t)[i];
    }
    NoNewlineTail(Content(c, ts), torn);
    HealedComplete(c, ts);
  }

  /** Cutting the file anywhere and healing it leaves the surviving records, a prefix of all. */
  lemma {:induction false} HealedCut<T(!new)>(c: Codec<T>, ts: seq<T>, k: nat)
    requires Faithful(c) && k <= |Content(c, ts)|
    ensures Healed(Content(c, ts)[..k]) == Content(c, ts[..Surviving(c, ts, k)])
    decreases |ts|
  {
    if |Content(c, ts)| == k {
      assert Content(c, ts)[..k] == Content(c, ts) && ts[..|ts|] == ts;
      HealedComplete(c, ts);
    } else {
      var init, last := ts[..|ts| - 1], ts[|ts| - 1];
      var before := Content(c, init);
      var n := Surviving(c, init, k);
      assert init[..n] == ts[..n];
      if k <= |before| {
        assert Content(c, ts)[..k] == before[..k];
        HealedCut(c, init, k);
      } else {
        var j := k - |before|;
        assert Content(c, ts)[..k] == before + Line(c, last)[..j];
        HealedTorn(c, init, last, j);
        assert init[..|init|] == init;
        SurvivingAll(c, init, k);
      }
    }
  }

  lemma SurvivingAll<T(!new)>(c: Codec<T>, ts: seq<T>, k: nat)
    requires |Content(c, ts)| <= k
    ensures Surviving(c, ts, k) == |ts|
  {
  }

  // ---- the backend ---------------------------------------------------------

  class FileLedgerBackend<T(!new)> {
    const codec: Codec<T>
    var file: Bytes
    var offsets: seq<nat>
    ghost var records: seq<T>

    ghost predicate Valid()
      reads this
    {
      && Faithful(codec)
      && file == Content(codec, records)
      && offsets == Starts(codec, records, 0)
    }

    /** Open a file that holds the first `k` bytes of a file of `written` records. */
    constructor (codec: Codec<T>, data: Bytes, ghost written: seq<T>, ghost k: nat)
      requires Faithful(codec) && k <= |Content(codec, written)|
      requires data == Content(codec, written)[..k]
      ensures Valid() && this.codec == codec
      ensures records == written[..Surviving(codec, written, k)]
    {
      this.codec := codec;
      var healed := HealTornTail(data);
      HealedCut(codec, written, k);
      ghost var rs := written[..Surviving(codec, written, k)];
      StartsFrom(codec, rs, 0);
      var index := IndexOffsets(healed);
      file := healed;
      offsets := index;
      records := rs;
    }

    method AppendRecord(record: T)
      requires Valid()
      modifies this
      ensures Valid() && records == old(records) + [record]
      ensures file == old(file) + Line(codec, record)
    {
      var line := codec.encode(record) + [NL];
      var offset := |file|;
      file := file + line;
      offsets := offsets + [offset];
      AppendStarts(codec, records, record);
      records := records + [record];
    }

    method Size() returns (n: nat)
      requires Valid()
      ensures n == |records|
    {
      n := |offsets|;
    }

    method IterRecords() returns (rs: seq<T>)
      requires Valid()
      ensures rs == records
    {
      rs := [];
      var pos := 0;
      assert records[..0] == [];
      while pos < |file|
        invariant |rs| <= |records| && rs == records[..|rs|]
        invariant pos == Start(codec, records, |rs|) <= |file|
      {
        StartOfEnd(codec, records);
        ReadRecord(codec, records, |rs|);
        var e := LineEnd(file, pos);
        var line := file[pos..e];
        if !Blank(line) {
          rs := rs + [codec.decode(line).value];
        }
        pos := e;
      }
      if |rs| < |records| {
        ReadRecord(codec, records, |rs|);
      }
    }

    /** `None` where the source raises IndexError. */
    method GetRecord(index: int) returns (r: Option<T>)
      requires Valid()
      ensures r == if 0 <= index < |records| then Some(records[index]) else None
    {
      if !(0 <= index < |offsets|) {
        return None;
      }
      ReadRecord(codec, records, index);
      var pos := offsets[index];
      r := codec.decode(file[pos..LineEnd(file, pos)]);
    }
  }

  /** Truncate after the last newline, found by scanning backwards. */
  method HealTornTail(data: Bytes) returns (healed: Bytes)
    ensures healed == Healed(data)
  {
    if data == [] || data[|data| - 1] == NL {
      assert data[..|data|] == data;
      return data;
    }
    var end := |data|;
    assert data[..end] == data;
    while end > 0 && data[end - 1] != NL
      invariant 0 <= end <= |data|
      invariant AfterLastNewline(data[..end]) == AfterLastNewline(data)
    {
      assert data[..end][..end - 1] == data[..end - 1];
      end := end - 1;
    }
    healed := data[..end];
  }

  method IndexOffsets(data: Bytes) returns (offsets: seq<nat>)
    ensures offsets == LineStarts(data, 0)
  {
    offsets := [];
    var pos := 0;
    while pos < |data|
      invariant 0 <= pos <= |data|
      invariant offsets + LineStarts(data, pos) == LineStarts(data, 0)
    {
      var e := LineEnd(data, pos);
      ghost var later := LineStarts(data, e);
      assert LineStarts(data, pos) == if Blank(data[pos..e]) then later else [pos] + later;
      assert offsets + ([pos] + later) == (offsets + [pos]) + later;
      if !Blank(data[pos..e]) {
        offsets := offsets + [pos];
      }
      pos := e;
    }
  }

  lemma AppendStarts<T(!new)>(c: Codec<T>, ts: seq<T>, t: T)
    ensures Content(c, ts + [t]) == Content(c, ts) + Line(c, t)
    ensures Starts(c, ts + [t], 0) == Starts(c, ts, 0) + [|Content(c, ts)|]
  {
    var all := ts + [t];
    assert all[..|ts|] == ts;
    forall k | 0 <= k < |ts| ensures Starts(c, all, 0)[k] == Starts(c, ts, 0)[k] {
      assert all[..0 + k] == ts[..0 + k];
    }
  }
}
