/**
 * The CNXMD encoder (the header-building loop of `handleConnection` in
 * pkg/cnxmd/client_proxy.go) and the round trip through the decoder.
 *
 * Go ranges over a map in no fixed order, so the encoder is modelled as
 * choosing the next key arbitrarily; a sequence of pairs that lists the map,
 * each key once, records the order one run chose. Every property below holds
 * for every such order.
 */
module ClientProxy {
  import opened Wrappers
  import opened Strings
  import opened Cnxmd

  /** One key/value pair of the header. */
  type Entry = (Bytes, Bytes)

  /** The line one pair contributes: `key=value` and a line delimiter (line 63). */
  function EntryLine(e: Entry): (r: Bytes)
  {
    e.0 + [KvDelim] + e.1 + [LineDelim]
  }

  /** The entry lines of `es`, one after another with nothing in between. */
  function EncodeEntries(es: seq<Entry>): (r: Bytes)
    decreases |es|
  {
    if es == [] then [] else EntryLine(es[0]) + EncodeEntries(es[1..])
  }

  /** The header for the pairs `es` in this order: head line, entry lines, empty line. */
  function Encode(es: seq<Entry>): (r: Bytes)
  {
    HeadLine + [LineDelim] + EncodeEntries(es) + [LineDelim]
  }

  /** The sum, over the pairs, of `len(key) + len(value) + 2`. */
  function EntriesSize(es: seq<Entry>): (r: nat)
    decreases |es|
  {
    if es == [] then 0 else |es[0].0| + |es[0].1| + 2 + EntriesSize(es[1..])
  }

  /** A pair the decoder can read back: no `=` or `\n` in the key, no `\n` in the value. */
  predicate ValidEntry(e: Entry)
  {
    KvDelim !in e.0 && LineDelim !in e.0 && LineDelim !in e.1
  }

  predicate ValidEntries(es: seq<Entry>)
  {
    forall i :: 0 <= i < |es| ==> ValidEntry(es[i])
  }

  predicate ValidMap(kv: map<Bytes, Bytes>)
  {
    forall k :: k in kv ==> ValidEntry((k, kv[k]))
  }

  predicate DistinctKeys(es: seq<Entry>)
  {
    forall i, j :: 0 <= i < j < |es| ==> es[i].0 != es[j].0
  }

  /** `es` lists the pairs of `kv`, each key once: one order in which `range kv` may visit them. */
  predicate ListsMap(es: seq<Entry>, kv: map<Bytes, Bytes>)
  {
    DistinctKeys(es) && ToMap(es) == kv
  }

  /** Encoding is a concatenation: two runs of pairs encode as their two encodings, back to back. */
  lemma {:induction false} EncodeEntriesConcat(es1: seq<Entry>, es2: seq<Entry>)
    ensures EncodeEntries(es1 + es2) == EncodeEntries(es1) + EncodeEntries(es2)
    decreases |es1|
  {
    if es1 == [] {
      assert es1 + es2 == es2;
    } else {
      assert (es1 + es2)[1..] == es1[1..] + es2;
      EncodeEntriesConcat(es1[1..], es2);
    }
  }

  /** The header length is `len(HeadLine) + 1 + Σ(len(k) + len(v) + 2) + 1`. */
  lemma {:induction false} EncodeLength(es: seq<Entry>)
    ensures |Encode(es)| == |HeadLine| + 1 + EntriesSize(es) + 1
  {
    EncodeEntriesLength(es);
  }

  lemma {:induction false} EncodeEntriesLength(es: seq<Entry>)
    ensures |EncodeEntries(es)| == EntriesSize(es)
    decreases |es|
  {
    if es != [] {
      EncodeEntriesLength(es[1..]);
    }
  }

  /**
   * The entry line of a valid pair ends in its only line delimiter, and
   * what precedes the delimiter is `key=value`.
   */
  lemma EntryLineShape(e: Entry)
    requires ValidEntry(e)
    ensures var line := EntryLine(e);
      && |line| >= 2
      && line[|line| - 1] == LineDelim
      && (forall k :: 0 <= k < |line| - 1 ==> line[k] != LineDelim)
      && line[..|line| - 1] == e.0 + [KvDelim] + e.1
  {
    var line := EntryLine(e);
    var body := e.0 + [KvDelim] + e.1;
    assert line == body + [LineDelim];
    forall k | 0 <= k < |line| - 1 ensures line[k] != LineDelim {
      assert line[k] == body[k];
      if k < |e.0| {
        assert body[k] == e.0[k];
      } else if k > |e.0| {
        assert body[k] == e.1[k - |e.0| - 1];
      }
    }
  }

  /** Reading a valid pair's entry line at `pos` yields that pair and moves past the line. */
  lemma ReadEntryLine(data: Bytes, pos: nat, kv: map<Bytes, Bytes>, e: Entry)
    requires ValidEntry(e)
    requires pos + |EntryLine(e)| <= |data| && data[pos..pos + |EntryLine(e)|] == EntryLine(e)
    ensures EntriesSpec(data, pos, kv) == EntriesSpec(data, pos + |EntryLine(e)|, kv[e.0 := e.1])
  {
    var line := EntryLine(e);
    var n := |line|;
    EntryLineShape(e);
    assert IndexFrom(data, pos, LineDelim) == Some(pos + n - 1) by {
      forall k | pos <= k < pos + n ensures data[k] == line[k - pos] {
        assert data[pos..pos + n][k - pos] == data[k];
      }
      IndexFromIs(data, pos, LineDelim, Some(pos + n - 1));
    }
    assert data[pos..pos + n - 1] == line[..n - 1];
    SplitEntryOf(e.0, e.1);
    EntriesSpecStep(data, pos, kv, pos + n - 1);
  }

  /** The first entry line of a run is read, and the rest of the run sits right after it. */
  lemma ReadFirstEntry(data: Bytes, pos: nat, kv: map<Bytes, Bytes>, es: seq<Entry>)
    requires es != [] && ValidEntries(es)
    requires pos + |EncodeEntries(es)| <= |data|
    requires data[pos..pos + |EncodeEntries(es)|] == EncodeEntries(es)
    ensures var n := |EntryLine(es[0])|;
      && ValidEntries(es[1..])
      && n + |EncodeEntries(es[1..])| == |EncodeEntries(es)|
      && data[pos + n..pos + n + |EncodeEntries(es[1..])|] == EncodeEntries(es[1..])
      && Apply(kv, es) == Apply(kv[es[0].0 := es[0].1], es[1..])
      && EntriesSpec(data, pos, kv) == EntriesSpec(data, pos + n, kv[es[0].0 := es[0].1])
  {
    var line := EntryLine(es[0]);
    var rest := EncodeEntries(es[1..]);
    assert EncodeEntries(es) == line + rest;
    SliceParts(data, pos, line, rest);
    ReadEntryLine(data, pos, kv, es[0]);
  }

  /** The decoder reads the entry lines of valid pairs back as those pairs, stored in order. */
  lemma {:induction false} ReadEntries(data: Bytes, pos: nat, kv: map<Bytes, Bytes>, es: seq<Entry>)
    requires ValidEntries(es)
    requires pos + |EncodeEntries(es)| <= |data|
    requires data[pos..pos + |EncodeEntries(es)|] == EncodeEntries(es)
    ensures EntriesSpec(data, pos, kv) == EntriesSpec(data, pos + |EncodeEntries(es)|, Apply(kv, es))
    decreases |es|
  {
    if es == [] {
      assert EncodeEntries(es) == [] && Apply(kv, es) == kv;
    } else {
      ReadFirstEntry(data, pos, kv, es);
      ReadEntries(data, pos + |EntryLine(es[0])|, kv[es[0].0 := es[0].1], es[1..]);
    }
  }

  /**
   * Round trip: the header for any valid pairs, followed by any payload,
   * decodes to exactly the header's length and to the map the pairs leave
   * when stored in order (a repeated key keeps its last value).
   */
  lemma RoundTrip(es: seq<Entry>, payload: Bytes)
    requires ValidEntries(es)
    ensures ParseSpec(Encode(es) + payload) == Success(Header(|Encode(es)|, ToMap(es)))
  {
    var head := HeadLine + [LineDelim];
    var entries := EncodeEntries(es);
    var data := Encode(es) + payload;
    assert data == head + entries + [LineDelim] + payload;
    ConcatParts(head, entries, [LineDelim], payload);
    var end := |head| + |entries|;
    ReadHeadLine(data);
    ReadEntries(data, |head|, map[], es);
    assert IndexFrom(data, end, LineDelim) == Some(end) by {
      IndexFromIs(data, end, LineDelim, Some(end));
    }
    EntriesSpecStep(data, end, ToMap(es), end);
  }

  /** The pairs the entry loop reads from `pos` on, in the order it stores them. */
  function EntriesRead(data: Bytes, pos: nat): (r: seq<Entry>)
    requires pos <= |data|
    decreases |data| - pos
  {
    match IndexFrom(data, pos, LineDelim)
    case None => []
    case Some(i) =>
      if i == pos then []
      else match SplitEntry(data[pos..i])
        case None => []
        case Some(e) => [e] + EntriesRead(data, i + 1)
  }

  /** The line of a pair cut from a delimiter-free line at its first `=` is that line and its delimiter. */
  lemma CutEntryLine(line: Bytes)
    requires LineDelim !in line && SplitEntry(line).Some?
    ensures ValidEntry(SplitEntry(line).value)
    ensures EntryLine(SplitEntry(line).value) == line + [LineDelim]
  {
    SplitEntryCut(line);
    var e := SplitEntry(line).value;
    assert LineDelim !in e.0 by {
      forall k | 0 <= k < |e.0| ensures e.0[k] != LineDelim {
        assert e.0[k] == line[k];
      }
    }
    assert LineDelim !in e.1 by {
      forall k | 0 <= k < |e.1| ensures e.1[k] != LineDelim {
        assert e.1[k] == line[|e.0| + 1 + k];
      }
    }
  }

  /** One turn of EntriesRead, read off its definition. */
  lemma EntriesReadStep(data: Bytes, pos: nat, i: nat)
    requires pos <= |data| && IndexFrom(data, pos, LineDelim) == Some(i)
    ensures i == pos ==> EntriesRead(data, pos) == []
    ensures i != pos && SplitEntry(data[pos..i]).Some? ==>
      EntriesRead(data, pos) == [SplitEntry(data[pos..i]).value] + EntriesRead(data, i + 1)
  {
  }

  /** A line read as an entry, then whatever the loop consumes after it. */
  lemma {:induction false} EntryThenRest(data: Bytes, pos: nat, i: nat, c: nat, e: Entry, rest: seq<Entry>)
    requires pos < i < c <= |data| && data[i] == LineDelim
    requires EntryLine(e) == data[pos..i] + [LineDelim]
    requires data[i + 1..c] == EncodeEntries(rest) + [LineDelim]
    ensures data[pos..c] == EncodeEntries([e] + rest) + [LineDelim]
  {
    assert ([e] + rest)[1..] == rest;
    assert data[pos..c] == data[pos..i] + [data[i]] + data[i + 1..c];
  }

  /** Valid pairs stay valid with a valid pair in front. */
  lemma ValidCons(e: Entry, rest: seq<Entry>)
    requires ValidEntry(e) && ValidEntries(rest)
    ensures ValidEntries([e] + rest)
  {
    assert forall k :: 0 < k < |[e] + rest| ==> ([e] + rest)[k] == rest[k - 1];
  }

  /** An empty line first: the loop stops after it, having read no pair. */
  lemma TerminatorRead(data: Bytes, pos: nat, kv: map<Bytes, Bytes>)
    requires pos <= |data| && IndexFrom(data, pos, LineDelim) == Some(pos)
    ensures EntriesSpec(data, pos, kv) == Success(Header(pos + 1, kv))
    ensures EntriesRead(data, pos) == [] && data[pos..pos + 1] == [LineDelim]
  {
    IndexFromFirst(data, pos, LineDelim);
    EntriesSpecStep(data, pos, kv, pos);
    EntriesReadStep(data, pos, pos);
    assert data[pos..pos + 1] == [data[pos]];
  }

  /** A non-empty line the loop gets past is the entry line of a valid pair, which it stores. */
  lemma EntryLineRead(data: Bytes, pos: nat, kv: map<Bytes, Bytes>, i: nat)
    requires pos <= |data| && IndexFrom(data, pos, LineDelim) == Some(i) && i != pos
    requires EntriesSpec(data, pos, kv).Success?
    ensures SplitEntry(data[pos..i]).Some?
    ensures var e := SplitEntry(data[pos..i]).value;
      && ValidEntry(e)
      && EntryLine(e) == data[pos..i] + [LineDelim]
      && EntriesSpec(data, pos, kv) == EntriesSpec(data, i + 1, kv[e.0 := e.1])
      && EntriesRead(data, pos) == [e] + EntriesRead(data, i + 1)
      && ([e] + EntriesRead(data, i + 1))[1..] == EntriesRead(data, i + 1)
  {
    var line := data[pos..i];
    IndexFromFirst(data, pos, LineDelim);
    EntriesSpecStep(data, pos, kv, i);
    EntriesReadStep(data, pos, i);
    assert LineDelim !in line by {
      forall k | 0 <= k < |line| ensures line[k] != LineDelim {
        assert line[k] == data[pos + k];
      }
    }
    CutEntryLine(line);
  }

  /** A successful entry loop consumed exactly the entry lines of valid pairs and the terminator. */
  lemma {:induction false} EntriesReadEncoded(data: Bytes, pos: nat, kv: map<Bytes, Bytes>)
    requires pos <= |data| && EntriesSpec(data, pos, kv).Success?
    ensures var h := EntriesSpec(data, pos, kv).value;
      var es := EntriesRead(data, pos);
      && pos < h.bytesConsumed <= |data|
      && ValidEntries(es)
      && data[pos..h.bytesConsumed] == EncodeEntries(es) + [LineDelim]
      && h.kv == Apply(kv, es)
    decreases |data| - pos
  {
    var i := IndexFrom(data, pos, LineDelim).value;
    if i == pos {
      TerminatorRead(data, pos, kv);
    } else {
      EntryLineRead(data, pos, kv, i);
      IndexFromFirst(data, pos, LineDelim);
      var e := SplitEntry(data[pos..i]).value;
      var rest := EntriesRead(data, i + 1);
      var next := kv[e.0 := e.1];
      EntriesReadEncoded(data, i + 1, next);
      ValidCons(e, rest);
      var c := EntriesSpec(data, i + 1, next).value.bytesConsumed;
      EntryThenRest(data, pos, i, c, e, rest);
    }
  }

  /** A buffer holding the head line, then entry lines and the terminator, holds a header. */
  lemma HeaderOf(data: Bytes, c: nat, es: seq<Entry>)
    requires |HeadLine| + 1 <= c <= |data|
    requires data[..|HeadLine| + 1] == HeadLine + [LineDelim]
    requires data[|HeadLine| + 1..c] == EncodeEntries(es) + [LineDelim]
    ensures data[..c] == Encode(es)
  {
    assert data[..c] == data[..|HeadLine| + 1] + data[|HeadLine| + 1..c];
  }

  /**
   * Whatever decodes was written by the encoder: the consumed bytes are the
   * header of valid pairs, and the map is the one those pairs leave.
   */
  lemma ParsedIsEncoded(data: Bytes)
    requires ParseSpec(data).Success?
    ensures var h := ParseSpec(data).value;
      var es := EntriesRead(data, |HeadLine| + 1);
      && h.bytesConsumed <= |data|
      && ValidEntries(es)
      && data[..h.bytesConsumed] == Encode(es)
      && h.kv == ToMap(es)
  {
    ParseSpecConsumed(data);
    ReadHeadLine(data);
    var start := |HeadLine| + 1;
    EntriesReadEncoded(data, start, map[]);
    HeaderOf(data, ParseSpec(data).value.bytesConsumed, EntriesRead(data, start));
  }

  /** Entries listed without repetition are all in the map, each with its own value. */
  lemma ListedEntries(es: seq<Entry>, i: nat)
    requires DistinctKeys(es) && i < |es|
    ensures es[i].0 in ToMap(es) && ToMap(es)[es[i].0] == es[i].1
  {
    LastWriteWins(map[], es, i);
  }

  /** Round trip for a map: whichever order the pairs were written in, the map comes back. */
  lemma MapRoundTrip(kv: map<Bytes, Bytes>, es: seq<Entry>, payload: Bytes)
    requires ValidMap(kv) && ListsMap(es, kv)
    ensures ParseSpec(Encode(es) + payload) == Success(Header(|Encode(es)|, kv))
  {
    forall i | 0 <= i < |es| ensures ValidEntry(es[i]) {
      ListedEntries(es, i);
    }
    RoundTrip(es, payload);
  }

  /** The head line holds neither delimiter. */
  lemma HeadLineClean()
    ensures forall k :: 0 <= k < |HeadLine| ==> HeadLine[k] != LineDelim && HeadLine[k] != KvDelim
  {
  }

  /** A buffer that starts with the head line and its delimiter gets past the head-line check. */
  lemma ReadHeadLine(data: Bytes)
    requires |HeadLine| < |data| && data[..|HeadLine| + 1] == HeadLine + [LineDelim]
    ensures ParseSpec(data) == EntriesSpec(data, |HeadLine| + 1, map[])
  {
    HeadLineClean();
    assert IndexFrom(data, 0, LineDelim) == Some(|HeadLine|) by {
      assert forall k :: 0 <= k <= |HeadLine| ==> data[k] == data[..|HeadLine| + 1][k];
      IndexFromIs(data, 0, LineDelim, Some(|HeadLine|));
    }
    assert data[..|HeadLine|] == data[..|HeadLine| + 1][..|HeadLine|];
  }

  /** A non-empty line without `=` at `pos` is reported as an invalid line. */
  lemma ReadInvalidLine(data: Bytes, pos: nat, kv: map<Bytes, Bytes>, line: Bytes)
    requires line != [] && KvDelim !in line && LineDelim !in line
    requires pos + |line| < |data| && data[pos..pos + |line| + 1] == line + [LineDelim]
    ensures EntriesSpec(data, pos, kv) == Failure(InvalidLine(line))
  {
    var n := |line|;
    assert IndexFrom(data, pos, LineDelim) == Some(pos + n) by {
      forall k | pos <= k <= pos + n ensures data[k] == (line + [LineDelim])[k - pos] {
        assert data[k] == data[pos..pos + n + 1][k - pos];
      }
      IndexFromIs(data, pos, LineDelim, Some(pos + n));
    }
    assert data[pos..pos + n] == data[pos..pos + n + 1][..n];
    SplitEntryCut(line);
    EntriesSpecStep(data, pos, kv, pos + n);
  }

  /**
   * A non-empty line without `=` after any valid entry lines makes Parse
   * fail, reporting that line, whatever follows it.
   */
  lemma InvalidEntryLine(es: seq<Entry>, line: Bytes, rest: Bytes)
    requires ValidEntries(es)
    requires line != [] && KvDelim !in line && LineDelim !in line
    ensures ParseSpec(HeadLine + [LineDelim] + EncodeEntries(es) + line + [LineDelim] + rest)
         == Failure(InvalidLine(line))
  {
    var head := HeadLine + [LineDelim];
    var entries := EncodeEntries(es);
    var back := line + [LineDelim];
    var data := HeadLine + [LineDelim] + EncodeEntries(es) + line + [LineDelim] + rest;
    assert data == head + entries + back + rest;
    ConcatParts(head, entries, back, rest);
    var start := |head|;
    var end := start + |entries|;
    ReadHeadLine(data);
    ReadEntries(data, start, map[], es);
    ReadInvalidLine(data, end, Apply(map[], es), line);
  }

  /** Cut inside an entry line, the buffer holds no further line delimiter. */
  lemma TruncatedInLine(data: Bytes, pos: nat, e: Entry, tail: Bytes)
    requires ValidEntry(e)
    requires pos <= |data| && |data| - pos < |EntryLine(e)|
    requires data[pos..] == (EntryLine(e) + tail)[..|data| - pos]
    ensures IndexFrom(data, pos, LineDelim) == None
  {
    var line := EntryLine(e);
    EntryLineShape(e);
    forall k | pos <= k < |data| ensures data[k] != LineDelim {
      assert data[k] == data[pos..][k - pos] == (line + tail)[k - pos] == line[k - pos];
    }
    IndexFromIs(data, pos, LineDelim, None);
  }

  /** Cut anywhere before the end of the terminator, valid entry lines read as a truncated header. */
  lemma {:induction false} ReadTruncatedEntries(data: Bytes, pos: nat, kv: map<Bytes, Bytes>, es: seq<Entry>)
    requires ValidEntries(es)
    requires pos <= |data| && |data| - pos < |EncodeEntries(es)| + 1
    requires data[pos..] == (EncodeEntries(es) + [LineDelim])[..|data| - pos]
    ensures EntriesSpec(data, pos, kv) == Failure(LineEOF)
    decreases |es|
  {
    if es == [] {
      IndexFromIs(data, pos, LineDelim, None);
    } else {
      var line := EntryLine(es[0]);
      var tail := EncodeEntries(es[1..]) + [LineDelim];
      assert EncodeEntries(es) + [LineDelim] == line + tail;
      if |data| - pos < |line| {
        TruncatedInLine(data, pos, es[0], tail);
      } else {
        PrefixParts(data, pos, line, tail);
        ReadEntryLine(data, pos, kv, es[0]);
        ReadTruncatedEntries(data, pos + |line|, kv[es[0].0 := es[0].1], es[1..]);
      }
    }
  }

  /**
   * Truncation: every strict prefix of a header fails to decode, for want of
   * the head line while that is incomplete, for want of a line afterwards.
   */
  lemma TruncatedHeader(es: seq<Entry>, n: nat)
    requires ValidEntries(es) && n < |Encode(es)|
    ensures ParseSpec(Encode(es)[..n]) == Failure(if n <= |HeadLine| then HeadLineEOF else LineEOF)
  {
    var head := HeadLine + [LineDelim];
    var body := EncodeEntries(es) + [LineDelim];
    var full := Encode(es);
    var data := full[..n];
    assert full == head + body;
    if n <= |HeadLine| {
      HeadLineClean();
      forall k | 0 <= k < |data| ensures data[k] != LineDelim {
        assert data[k] == full[k] == head[k] == HeadLine[k];
      }
      NoHeadLine(data);
    } else {
      assert data[0..] == (head + body)[..n];
      PrefixParts(data, 0, head, body);
      ReadHeadLine(data);
      ReadTruncatedEntries(data, |head|, map[], es);
    }
  }

  /** Removing one pair from a run removes its share from the size. */
  lemma {:induction false} SizeWithout(es: seq<Entry>, j: nat)
    requires j < |es|
    ensures EntriesSize(es) == |es[j].0| + |es[j].1| + 2 + EntriesSize(es[..j] + es[j + 1..])
    decreases |es|
  {
    if j == 0 {
      assert es[..0] + es[1..] == es[1..];
    } else {
      SizeWithout(es[1..], j - 1);
      assert es[..j] + es[j + 1..] == [es[0]] + (es[1..][..j - 1] + es[1..][j..]);
    }
  }

  /** Where the pairs of a list with one pair taken out come from. */
  lemma RemoveAt(es: seq<Entry>, j: nat)
    requires j < |es|
    ensures var r := es[..j] + es[j + 1..];
      |r| == |es| - 1 && forall i :: 0 <= i < |r| ==> r[i] == es[if i < j then i else i + 1]
  {
  }

  /** Taking a pair out of a list without repeated keys leaves a list without repeated keys. */
  lemma DistinctWithout(es: seq<Entry>, j: nat)
    requires DistinctKeys(es) && j < |es|
    ensures DistinctKeys(es[..j] + es[j + 1..])
  {
    var r := es[..j] + es[j + 1..];
    RemoveAt(es, j);
    forall a, b | 0 <= a < b < |r| ensures r[a].0 != r[b].0 {
      assert r[a] == es[if a < j then a else a + 1];
      assert r[b] == es[if b < j then b else b + 1];
    }
  }

  /** What the shorter list stores, the whole list stores too, under a different key than the one taken out. */
  lemma KeptWithout(es: seq<Entry>, j: nat, x: Bytes)
    requires DistinctKeys(es) && j < |es| && x in ToMap(es[..j] + es[j + 1..])
    ensures x in ToMap(es) && x != es[j].0 && ToMap(es[..j] + es[j + 1..])[x] == ToMap(es)[x]
  {
    var r := es[..j] + es[j + 1..];
    RemoveAt(es, j);
    DistinctWithout(es, j);
    ApplyKeys(map[], r);
    var i :| 0 <= i < |r| && r[i].0 == x;
    var k := if i < j then i else i + 1;
    assert r[i] == es[k];
    ListedEntries(r, i);
    ListedEntries(es, k);
  }

  /** Every other key the whole list stores, the shorter list stores too. */
  lemma OthersKept(es: seq<Entry>, j: nat, x: Bytes)
    requires j < |es| && x in ToMap(es) && x != es[j].0
    ensures x in ToMap(es[..j] + es[j + 1..])
  {
    var r := es[..j] + es[j + 1..];
    RemoveAt(es, j);
    ApplyKeys(map[], r);
    ApplyKeys(map[], es);
    var i :| 0 <= i < |es| && es[i].0 == x;
    var k := if i < j then i else i - 1;
    assert r[k] == es[i];
  }

  /** Leaving one pair out of a list without repeated keys leaves its key out of the map. */
  lemma MapWithout(es: seq<Entry>, j: nat)
    requires DistinctKeys(es) && j < |es|
    ensures DistinctKeys(es[..j] + es[j + 1..])
    ensures ToMap(es[..j] + es[j + 1..]) == ToMap(es) - {es[j].0}
  {
    var r := es[..j] + es[j + 1..];
    DistinctWithout(es, j);
    forall x | x in ToMap(r) ensures x in ToMap(es) && x != es[j].0 && ToMap(r)[x] == ToMap(es)[x] {
      KeptWithout(es, j, x);
    }
    forall x | x in ToMap(es) && x != es[j].0 ensures x in ToMap(r) {
      OthersKept(es, j, x);
    }
    assert ToMap(r).Keys == ToMap(es).Keys - {es[j].0};
  }

  /** Only the empty list of pairs leaves an empty map. */
  lemma NothingStored(es: seq<Entry>)
    ensures ToMap(es) == map[] ==> es == []
  {
    if es != [] {
      ApplyKeys(map[], es);
      assert es[0].0 in ToMap(es);
    }
  }

  /** Two lists of the same map, in any orders, have the same size. */
  lemma {:induction false} SizeOrderFree(es1: seq<Entry>, es2: seq<Entry>)
    requires DistinctKeys(es1) && DistinctKeys(es2) && ToMap(es1) == ToMap(es2)
    ensures EntriesSize(es1) == EntriesSize(es2)
    decreases |es1|
  {
    ApplyKeys(map[], es2);
    if es1 == [] {
      NothingStored(es2);
    } else {
      var e := es1[0];
      ListedEntries(es1, 0);
      var j :| 0 <= j < |es2| && es2[j].0 == e.0;
      ListedEntries(es2, j);
      SizeWithout(es2, j);
      MapWithout(es1, 0);
      MapWithout(es2, j);
      assert es1[..0] + es1[1..] == es1[1..];
      SizeOrderFree(es1[1..], es2[..j] + es2[j + 1..]);
    }
  }

  /** The header's length does not depend on the order in which the map was ranged over. */
  lemma LengthOrderFree(kv: map<Bytes, Bytes>, es1: seq<Entry>, es2: seq<Entry>)
    requires ListsMap(es1, kv) && ListsMap(es2, kv)
    ensures |Encode(es1)| == |Encode(es2)|
  {
    EncodeLength(es1);
    EncodeLength(es2);
    SizeOrderFree(es1, es2);
  }

  /** Appending one `key=value` line to a header extends its run of entry lines by that pair. */
  lemma AppendEntry(header: Bytes, order: seq<Entry>, key: Bytes, value: Bytes)
    requires header == HeadLine + [LineDelim] + EncodeEntries(order)
    ensures header + key + [KvDelim] + value + [LineDelim]
         == HeadLine + [LineDelim] + EncodeEntries(order + [(key, value)])
  {
    var e := (key, value);
    EncodeEntriesConcat(order, [e]);
    assert EncodeEntries([e]) == EntryLine(e) + [];
    assert header + key + [KvDelim] + value + [LineDelim] == header + EntryLine(e);
  }

  /** Storing the next chosen key keeps the pairs listed so far a listing of the keys done. */
  lemma StoreNext(kv: map<Bytes, Bytes>, remaining: set<Bytes>, order: seq<Entry>, key: Bytes)
    requires key in remaining && remaining <= kv.Keys
    requires DistinctKeys(order)
    requires forall i :: 0 <= i < |order| ==> order[i].0 in kv && order[i].0 !in remaining
    requires ToMap(order) == map k | k in kv && k !in remaining :: kv[k]
    ensures var next := order + [(key, kv[key])];
      && DistinctKeys(next)
      && (forall i :: 0 <= i < |next| ==> next[i].0 in kv && next[i].0 !in remaining - {key})
      && ToMap(next) == map k | k in kv && k !in remaining - {key} :: kv[k]
  {
    var next := order + [(key, kv[key])];
    ApplyAppend(map[], order, (key, kv[key]));
    assert forall i :: 0 <= i < |order| ==> next[i] == order[i];
  }

  /**
   * The header-building loop (lines 61-65): the head line, then one entry
   * line per pair of `kv` in whatever order ranging over the map takes, then
   * the empty line. `order` records the order taken.
   */
  method BuildHeader(kv: map<Bytes, Bytes>) returns (header: Bytes, ghost order: seq<Entry>)
    ensures ListsMap(order, kv)
    ensures header == Encode(order)
    ensures |header| == |HeadLine| + 1 + EntriesSize(order) + 1
    ensures ValidMap(kv) ==> ParseSpec(header) == Success(Header(|header|, kv))
  {
    header := HeadLine + [LineDelim];
    order := [];
    var remaining := kv.Keys;
    while remaining != {}
      invariant remaining <= kv.Keys
      invariant DistinctKeys(order)
      invariant forall i :: 0 <= i < |order| ==> order[i].0 in kv && order[i].0 !in remaining
      invariant ToMap(order) == map k | k in kv && k !in remaining :: kv[k]
      invariant header == HeadLine + [LineDelim] + EncodeEntries(order)
      decreases remaining
    {
      var key :| key in remaining;
      var value := kv[key];
      AppendEntry(header, order, key, value);
      StoreNext(kv, remaining, order, key);
      header := header + key + [KvDelim] + value + [LineDelim];
      order := order + [(key, value)];
      remaining := remaining - {key};
    }
    header := header + [LineDelim];
    EncodeLength(order);
    if ValidMap(kv) {
      MapRoundTrip(kv, order, []);
      assert header + [] == header;
    }
  }

  /** What the socket's `Write` reported: an error, or the number of bytes written. */
  datatype WriteResult = WriteError | Written(count: nat)

  /** How the header phase of a connection ends (lines 66-75). */
  datatype HeaderOutcome =
    | WriteFailed                               // "failed to write header"
    | ShortWrite(written: nat, expected: nat)   // "failed to write full header"
    | HeaderSent                                // go on to relay the payload

  /**
   * Build the header and write it with `write`, standing for the outbound
   * socket; relaying may start only once the whole header went out, and then
   * the receiver decodes exactly that many bytes back into `kv`.
   */
  method SendHeader(kv: map<Bytes, Bytes>, write: Bytes -> WriteResult)
    returns (header: Bytes, outcome: HeaderOutcome, ghost order: seq<Entry>)
    ensures ListsMap(order, kv) && header == Encode(order)
    ensures outcome == WriteFailed <==> write(header) == WriteError
    ensures outcome == HeaderSent <==> write(header) == Written(|header|)
    ensures outcome.ShortWrite? ==>
      write(header) == Written(outcome.written) && outcome.written != |header| && outcome.expected == |header|
    ensures outcome == HeaderSent && ValidMap(kv) ==> ParseSpec(header) == Success(Header(|header|, kv))
  {
    header, order := BuildHeader(kv);
    var result := write(header);
    match result
    case WriteError =>
      outcome := WriteFailed;
    case Written(written) =>
      if written != |header| {
        outcome := ShortWrite(written, |header|);
      } else {
        outcome := HeaderSent;
      }
  }
}
