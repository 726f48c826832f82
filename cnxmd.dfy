/**
 * The CNXMD decoder (`Parse` in pkg/cnxmd/cnxmd.go).
 *
 * A header is the head line `CONNECTION_METADATA/1.1`, then `key=value`
 * lines, then one empty line, every line ending in `\n`. `ParseSpec` states
 * line by line what decoding a buffer yields; `Parse` is the source's loop
 * over a buffered line reader and is proved to compute `ParseSpec`.
 */
module Cnxmd {
  import opened Wrappers
  import opened Strings

  const LineDelim: byte := '\n'
  const KvDelim: byte := '='
  const HeadLine: Bytes := "CONNECTION_METADATA/1.1"

  /** The four ways Parse fails; the line reported has its `\n` stripped. */
  datatype ParseError =
    | HeadLineEOF              // "failed to read head line: EOF"
    | BadHead(head: Bytes)     // "unexpected head line: <head>"
    | LineEOF                  // "failed to read line: EOF"
    | InvalidLine(line: Bytes) // "invalid line: <line>"

  /** A decoded header: how many bytes of the buffer it spans, and its entries. */
  datatype Header = Header(bytesConsumed: nat, kv: map<Bytes, Bytes>)

  /** The pair an entry line stands for: the key before its first `=`, the value after it. */
  function SplitEntry(line: Bytes): (r: Option<(Bytes, Bytes)>)
  {
    match IndexFrom(line, 0, KvDelim)
    case None => None
    case Some(i) => Some((line[..i], line[i + 1..]))
  }

  /**
   * A line is an entry exactly when it holds a `=`; its key holds no `=`
   * and the line is the key, a `=` and the value.
   */
  lemma SplitEntryCut(line: Bytes)
    ensures SplitEntry(line).None? <==> KvDelim !in line
    ensures SplitEntry(line).Some? ==>
      var (key, value) := SplitEntry(line).value;
      line == key + [KvDelim] + value && KvDelim !in key
  {
    IndexFromFirst(line, 0, KvDelim);
    match IndexFrom(line, 0, KvDelim)
    case None =>
    case Some(i) =>
      assert line == line[..i] + [KvDelim] + line[i + 1..];
      assert forall k :: 0 <= k < i ==> line[..i][k] != KvDelim;
  }

  /** The only way to read `key + "=" + value` as an entry is with that key and value. */
  lemma SplitEntryOf(key: Bytes, value: Bytes)
    requires KvDelim !in key
    ensures SplitEntry(key + [KvDelim] + value) == Some((key, value))
  {
    var line := key + [KvDelim] + value;
    assert line[|key|] == KvDelim;
    assert forall k :: 0 <= k < |key| ==> line[k] != KvDelim by {
      forall k | 0 <= k < |key| ensures line[k] != KvDelim {
        assert line[k] == key[k];
      }
    }
    IndexFromIs(line, 0, KvDelim, Some(|key|));
    assert line[..|key|] == key;
    assert line[|key| + 1..] == value;
  }

  /** The map after entries `es` are stored into `kv` one after another (the source's line 59). */
  function Apply(kv: map<Bytes, Bytes>, es: seq<(Bytes, Bytes)>): (r: map<Bytes, Bytes>)
    decreases |es|
  {
    if es == [] then kv else Apply(kv[es[0].0 := es[0].1], es[1..])
  }

  /** The map that entries `es`, stored in order into an empty map, leave behind. */
  function ToMap(es: seq<(Bytes, Bytes)>): (r: map<Bytes, Bytes>)
  {
    Apply(map[], es)
  }

  /** Storing one more entry overwrites its key and leaves every other key as it was. */
  lemma {:induction false} ApplyAppend(kv: map<Bytes, Bytes>, es: seq<(Bytes, Bytes)>, e: (Bytes, Bytes))
    ensures Apply(kv, es + [e]) == Apply(kv, es)[e.0 := e.1]
    decreases |es|
  {
    if es == [] {
      assert es + [e] == [e];
    } else {
      assert (es + [e])[1..] == es[1..] + [e];
      ApplyAppend(kv[es[0].0 := es[0].1], es[1..], e);
    }
  }

  /** The keys stored are those of `kv` and of the entries. */
  lemma {:induction false} ApplyKeys(kv: map<Bytes, Bytes>, es: seq<(Bytes, Bytes)>)
    ensures Apply(kv, es).Keys == kv.Keys + set i | 0 <= i < |es| :: es[i].0
    decreases |es|
  {
    if es != [] {
      ApplyKeys(kv[es[0].0 := es[0].1], es[1..]);
      var tail := set i | 0 <= i < |es[1..]| :: es[1..][i].0;
      var all := set i | 0 <= i < |es| :: es[i].0;
      assert all == {es[0].0} + tail by {
        forall k | k in all ensures k in {es[0].0} + tail {
          var i :| 0 <= i < |es| && es[i].0 == k;
          if i > 0 { assert es[1..][i - 1].0 == k; }
        }
        forall k | k in tail ensures k in all {
          var i :| 0 <= i < |es[1..]| && es[1..][i].0 == k;
          assert es[i + 1].0 == k;
        }
      }
    }
  }

  /** Last write wins: a key holds the value of the last entry that names it. */
  lemma {:induction false} LastWriteWins(kv: map<Bytes, Bytes>, es: seq<(Bytes, Bytes)>, i: nat)
    requires i < |es|
    requires forall j :: i < j < |es| ==> es[j].0 != es[i].0
    ensures es[i].0 in Apply(kv, es) && Apply(kv, es)[es[i].0] == es[i].1
    decreases |es|
  {
    if i + 1 == |es| {
      assert es == es[..i] + [es[i]];
      ApplyAppend(kv, es[..i], es[i]);
    } else {
      var last := es[|es| - 1];
      assert es == es[..|es| - 1] + [last];
      ApplyAppend(kv, es[..|es| - 1], last);
      LastWriteWins(kv, es[..|es| - 1], i);
    }
  }

  /**
   * What the entry loop (lines 40-60) yields when the unread part of the
   * buffer starts at `pos` and `kv` holds the entries read so far.
   */
  function EntriesSpec(data: Bytes, pos: nat, kv: map<Bytes, Bytes>): (r: Result<Header, ParseError>)
    requires pos <= |data|
    decreases |data| - pos
  {
    match IndexFrom(data, pos, LineDelim)
    case None => Failure(LineEOF)
    case Some(i) =>
      if i == pos then Success(Header(i + 1, kv))
      else
        var line := data[pos..i];
        match SplitEntry(line)
        case None => Failure(InvalidLine(line))
        case Some(entry) => EntriesSpec(data, i + 1, kv[entry.0 := entry.1])
  }

  /**
   * The entry loop stops after a line delimiter in the buffer, on an empty
   * line, and it fails only for want of a line delimiter or on an invalid line.
   */
  lemma {:induction false} EntriesSpecShape(data: Bytes, pos: nat, kv: map<Bytes, Bytes>)
    requires pos <= |data|
    ensures var r := EntriesSpec(data, pos, kv);
      r.Success? ==>
        var c := r.value.bytesConsumed;
        pos < c <= |data| && data[c - 1] == LineDelim && (pos + 1 < c ==> data[c - 2] == LineDelim)
    ensures var r := EntriesSpec(data, pos, kv);
      r.Failure? ==> r.error == LineEOF || r.error.InvalidLine?
    decreases |data| - pos
  {
    IndexFromFirst(data, pos, LineDelim);
    match IndexFrom(data, pos, LineDelim)
    case None =>
    case Some(i) =>
      if i != pos {
        match SplitEntry(data[pos..i])
        case None =>
        case Some(entry) => EntriesSpecShape(data, i + 1, kv[entry.0 := entry.1]);
      }
  }

  /**
   * The source's way of cutting an entry line, `strings.Split` on `=` and
   * re-joining every piece but the first (lines 53-58), finds a key exactly
   * when the line holds a `=`, and then yields the key before the first `=`
   * and the value after it, with any further `=` kept in the value.
   */
  lemma SplitJoinIsFirstCut(line: Bytes)
    ensures |Split(line, KvDelim)| >= 2 <==> SplitEntry(line).Some?
    ensures SplitEntry(line).Some? ==>
      Split(line, KvDelim)[0] == SplitEntry(line).value.0 &&
      Join(Split(line, KvDelim)[1..], KvDelim) == SplitEntry(line).value.1
  {
    if IndexFrom(line, 0, KvDelim).Some? {
      SplitAtFirst(line, KvDelim, IndexFrom(line, 0, KvDelim).value);
    }
  }

  /** One turn of the entry loop, read off EntriesSpec. */
  lemma EntriesSpecStep(data: Bytes, pos: nat, kv: map<Bytes, Bytes>, i: nat)
    requires pos <= |data| && IndexFrom(data, pos, LineDelim) == Some(i)
    ensures i == pos ==> EntriesSpec(data, pos, kv) == Success(Header(pos + 1, kv))
    ensures i != pos && SplitEntry(data[pos..i]).None? ==>
      EntriesSpec(data, pos, kv) == Failure(InvalidLine(data[pos..i]))
    ensures i != pos && SplitEntry(data[pos..i]).Some? ==>
      var entry := SplitEntry(data[pos..i]).value;
      EntriesSpec(data, pos, kv) == EntriesSpec(data, i + 1, kv[entry.0 := entry.1])
  {
  }

  /** One turn of the entry loop as Parse performs it, with Split and Join in place of SplitEntry. */
  lemma EntriesSpecLine(data: Bytes, pos: nat, kv: map<Bytes, Bytes>, i: nat, line: Bytes)
    requires pos <= |data| && IndexFrom(data, pos, LineDelim) == Some(i) && line == data[pos..i]
    ensures line == [] ==> EntriesSpec(data, pos, kv) == Success(Header(i + 1, kv))
    ensures line != [] && |Split(line, KvDelim)| < 2 ==>
      EntriesSpec(data, pos, kv) == Failure(InvalidLine(line))
    ensures line != [] && |Split(line, KvDelim)| >= 2 ==>
      var parts := Split(line, KvDelim);
      EntriesSpec(data, pos, kv) == EntriesSpec(data, i + 1, kv[parts[0] := Join(parts[1..], KvDelim)])
  {
    EntriesSpecStep(data, pos, kv, i);
    SplitJoinIsFirstCut(line);
  }

  /** What Parse returns for `data`. */
  function ParseSpec(data: Bytes): (r: Result<Header, ParseError>)
  {
    match IndexFrom(data, 0, LineDelim)
    case None => Failure(HeadLineEOF)
    case Some(i) =>
      if data[..i] != HeadLine then Failure(BadHead(data[..i]))
      else EntriesSpec(data, i + 1, map[])
  }

  /**
   * On success the bytes consumed are the head line, the entry lines and the
   * empty terminator line: they lie within the buffer, start with the head
   * line and its delimiter, and end in two line delimiters.
   */
  lemma ParseSpecConsumed(data: Bytes)
    requires ParseSpec(data).Success?
    ensures var c := ParseSpec(data).value.bytesConsumed;
      && |HeadLine| + 2 <= c <= |data|
      && data[..|HeadLine| + 1] == HeadLine + [LineDelim]
      && data[c - 2] == LineDelim && data[c - 1] == LineDelim
  {
    IndexFromFirst(data, 0, LineDelim);
    var i := IndexFrom(data, 0, LineDelim).value;
    EntriesSpecShape(data, i + 1, map[]);
    assert data[..|HeadLine| + 1] == data[..i] + [data[i]];
  }

  /** Parse fails to read the head line exactly when the buffer holds no line delimiter. */
  lemma NoHeadLine(data: Bytes)
    ensures ParseSpec(data) == Failure(HeadLineEOF) <==> LineDelim !in data
  {
    IndexFromFirst(data, 0, LineDelim);
    match IndexFrom(data, 0, LineDelim)
    case None =>
    case Some(i) =>
      if data[..i] == HeadLine {
        EntriesSpecShape(data, i + 1, map[]);
      }
  }

  /** A first line other than the head line is reported as it is, whatever follows it. */
  lemma BadHeadLine(line: Bytes, rest: Bytes)
    requires LineDelim !in line && line != HeadLine
    ensures ParseSpec(line + [LineDelim] + rest) == Failure(BadHead(line))
  {
    var data := line + [LineDelim] + rest;
    assert forall k :: 0 <= k < |line| ==> data[k] != LineDelim by {
      forall k | 0 <= k < |line| ensures data[k] != LineDelim {
        assert data[k] == line[k];
      }
    }
    IndexFromIs(data, 0, LineDelim, Some(|line|));
    assert data[..|line|] == line;
  }

  /** The entry loop reads no byte beyond the ones it consumes. */
  lemma {:induction false} EntriesSpecReadsConsumed(data: Bytes, other: Bytes, pos: nat, kv: map<Bytes, Bytes>)
    requires pos <= |data| && pos <= |other| && EntriesSpec(data, pos, kv).Success?
    requires var c := EntriesSpec(data, pos, kv).value.bytesConsumed;
      c <= |data| && c <= |other| && other[..c] == data[..c]
    ensures EntriesSpec(other, pos, kv) == EntriesSpec(data, pos, kv)
    decreases |data| - pos
  {
    var c := EntriesSpec(data, pos, kv).value.bytesConsumed;
    var i := IndexFrom(data, pos, LineDelim).value;
    EntriesSpecStep(data, pos, kv, i);
    var entry: (Bytes, Bytes) := if i == pos then ([], []) else SplitEntry(data[pos..i]).value;
    if i != pos {
      EntriesSpecShape(data, i + 1, kv[entry.0 := entry.1]);
    }
    IndexFromPrefix(data, other, pos, c, LineDelim);
    EntriesSpecStep(other, pos, kv, i);
    if i != pos {
      EntriesSpecReadsConsumed(data, other, i + 1, kv[entry.0 := entry.1]);
    }
  }

  /**
   * Bytes after the terminating empty line play no part: the consumed bytes
   * followed by any payload decode exactly as the whole buffer did.
   */
  lemma PayloadIgnored(data: Bytes, payload: Bytes)
    requires ParseSpec(data).Success?
    ensures var c := ParseSpec(data).value.bytesConsumed;
      c <= |data| && ParseSpec(data[..c] + payload) == ParseSpec(data)
  {
    ParseSpecConsumed(data);
    var c := ParseSpec(data).value.bytesConsumed;
    var other := data[..c] + payload;
    var i := IndexFrom(data, 0, LineDelim).value;
    EntriesSpecShape(data, i + 1, map[]);
    assert other[..c] == data[..c];
    IndexFromPrefix(data, other, 0, c, LineDelim);
    assert other[..i] == other[0..i];
    EntriesSpecReadsConsumed(data, other, i + 1, map[]);
  }

  /** A `bufio.Reader` over an in-memory buffer: the bytes not yet read are `data[pos..]`. */
  class LineReader {
    const data: Bytes
    var pos: nat

    ghost predicate Valid()
      reads this
    {
      pos <= |data|
    }

    constructor (data: Bytes)
      ensures Valid() && this.data == data && pos == 0
    {
      this.data := data;
      pos := 0;
    }

    /**
     * `ReadString('\n')`: the bytes up to and including the next `\n`; when
     * there is none, the rest of the buffer and `eof`.
     */
    method ReadString() returns (line: Bytes, eof: bool)
      requires Valid()
      modifies this
      ensures Valid()
      ensures eof <==> IndexFrom(data, old(pos), LineDelim).None?
      ensures eof ==> line == data[old(pos)..] && pos == |data|
      ensures !eof ==> pos == IndexFrom(data, old(pos), LineDelim).value + 1
      ensures !eof ==> line == data[old(pos)..pos]
    {
      var i := pos;
      while i < |data| && data[i] != LineDelim
        invariant pos <= i <= |data|
        invariant forall k :: pos <= k < i ==> data[k] != LineDelim
      {
        i := i + 1;
      }
      IndexFromIs(data, pos, LineDelim, if i == |data| then None else Some(i));
      if i == |data| {
        line, eof := data[pos..], true;
        pos := |data|;
      } else {
        line, eof := data[pos..i + 1], false;
        pos := i + 1;
      }
    }
  }

  /** Parse (lines 20-61): read the head line, then entry lines until the empty line. */
  method Parse(data: Bytes) returns (r: Result<Header, ParseError>)
    ensures r == ParseSpec(data)
  {
    var reader := new LineReader(data);
    var head, eof := reader.ReadString();
    if eof {
      return Failure(HeadLineEOF);
    }
    var l := |head|;
    head := head[..l - 1];
    assert head == data[..l - 1];
    if head != HeadLine {
      return Failure(BadHead(head));
    }
    ghost var goal := ParseSpec(data);
    assert goal == EntriesSpec(data, l, map[]);
    var bytesConsumed := l;
    var kv := map[];
    while true
      invariant reader.Valid() && reader.data == data
      invariant 0 < reader.pos && bytesConsumed == reader.pos
      invariant goal == EntriesSpec(data, reader.pos, kv)
      decreases |data| - reader.pos
    {
      ghost var start := reader.pos;
      var line;
      line, eof := reader.ReadString();
      if eof {
        return Failure(LineEOF);
      }
      ghost var end := reader.pos - 1;
      l := |line|;
      bytesConsumed := bytesConsumed + l;
      line := line[..l - 1];
      assert line == data[start..end];
      EntriesSpecLine(data, start, kv, end, line);
      if line == [] {
        return Success(Header(bytesConsumed, kv));
      }
      var components := Split(line, KvDelim);
      if |components| < 2 {
        return Failure(InvalidLine(line));
      }
      var val := Join(components[1..], KvDelim);
      kv := kv[components[0] := val];
    }
  }
}
