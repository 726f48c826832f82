/**
 * The table of pkg/cnxmd/cnxmd_test.go, each row as a lemma about the
 * decoder, derived from the general properties rather than by evaluation.
 */
module CnxmdVectors {
  import opened Wrappers
  import opened Strings
  import opened Cnxmd
  import opened ClientProxy

  /** A buffer without any line delimiter: the head line cannot be read. */
  lemma NoLineAtAll()
    ensures ParseSpec("fdljkafjda") == Failure(HeadLineEOF)
  {
    NoHeadLine("fdljkafjda");
  }

  /** A first line that is not the head line is reported. */
  lemma ForeignHeadLine()
    ensures ParseSpec("fdljkafjda\n") == Failure(BadHead("fdljkafjda"))
  {
    BadHeadLine("fdljkafjda", []);
    assert "fdljkafjda" + [LineDelim] + [] == "fdljkafjda\n";
  }

  /** The head line alone: the input ends before the terminator. */
  lemma HeadLineOnly()
    ensures ParseSpec("CONNECTION_METADATA/1.1\n") == Failure(LineEOF)
  {
    TruncatedHeader([], 24);
    assert Encode([])[..24] == "CONNECTION_METADATA/1.1\n";
  }

  /** The empty header spans 25 bytes. */
  lemma EmptyHeader()
    ensures ParseSpec("CONNECTION_METADATA/1.1\n\n") == Success(Header(25, map[]))
  {
    RoundTrip([], []);
    assert Encode([]) + [] == "CONNECTION_METADATA/1.1\n\n";
  }

  /** The input of the next vector, one valid entry line and then the line at fault. */
  lemma InvalidLineInput(es: seq<Entry>)
    requires es == [("Yxhs", "fdasj")]
    ensures ValidEntries(es)
    ensures HeadLine + [LineDelim] + EncodeEntries(es) + "invalid-kv-line" + [LineDelim] + "\n"
         == HeadLine + "\n" + "Yxhs=fdasj\n" + "invalid-kv-line" + "\n" + "\n"
  {
    assert es[1..] == [];
    assert EncodeEntries(es) == EntryLine(es[0]) + [];
    assert EntryLine(es[0]) == "Yxhs=fdasj\n";
  }

  /** A line without `=` after a valid entry is reported. */
  lemma LineWithoutSeparator()
    ensures ParseSpec(HeadLine + "\n" + "Yxhs=fdasj\n" + "invalid-kv-line" + "\n" + "\n")
         == Failure(InvalidLine("invalid-kv-line"))
  {
    var es: seq<Entry> := [("Yxhs", "fdasj")];
    InvalidLineInput(es);
    InvalidEntryLine(es, "invalid-kv-line", "\n");
  }

  /** The two entries of the next vector, encoded and collected. */
  lemma SeparatorEntries(es: seq<Entry>)
    requires es == [("foo", "bar"), ("joe", "jane=jack")]
    ensures ValidEntries(es)
    ensures Encode(es) == HeadLine + "\n" + ("foo=bar\n" + "joe=jane=jack\n") + "\n"
    ensures ToMap(es) == map["foo" := "bar", "joe" := "jane=jack"]
  {
    var rest := es[1..];
    assert rest[1..] == [];
    assert EncodeEntries(rest) == EntryLine(rest[0]) + [];
    assert EncodeEntries(es) == EntryLine(es[0]) + EncodeEntries(rest);
    assert EntryLine(es[0]) == "foo=bar\n";
    assert EntryLine(rest[0]) == "joe=jane=jack\n";
    assert ToMap(es) == Apply(map["foo" := "bar"], rest);
    assert Apply(map["foo" := "bar"], rest) == Apply(map["foo" := "bar", "joe" := "jane=jack"], []);
  }

  /** Extra `=` stay in the value; the header spans 47 bytes. */
  lemma ValueWithSeparators()
    ensures ParseSpec(HeadLine + "\n" + ("foo=bar\n" + "joe=jane=jack\n") + "\n")
         == Success(Header(47, map["foo" := "bar", "joe" := "jane=jack"]))
  {
    var es: seq<Entry> := [("foo", "bar"), ("joe", "jane=jack")];
    SeparatorEntries(es);
    RoundTrip(es, []);
    assert Encode(es) + [] == Encode(es);
  }

  /** The 278-byte header with a 250-byte value. */
  lemma LongValue()
    ensures var ys: Bytes := seq(250, _ => 'y');
      ParseSpec(HeadLine + "\n" + ("x=" + ys + "\n") + "\n") == Success(Header(278, map["x" := ys]))
  {
    var ys: Bytes := seq(250, _ => 'y');
    var es: seq<Entry> := [("x", ys)];
    assert Encode(es) == HeadLine + "\n" + ("x=" + ys + "\n") + "\n" by {
      assert EncodeEntries(es) == EntryLine(es[0]) + [];
      assert "x=" == "x" + [KvDelim];
    }
    assert ToMap(es) == map["x" := ys] by {
      assert es[1..] == [];
      assert ToMap(es) == Apply(map[]["x" := ys], []);
    }
    RoundTrip(es, []);
    assert Encode(es) + [] == Encode(es);
  }

  /** Unprintable bytes pass through into keys and values. */
  lemma UnprintableBytes()
    ensures ParseSpec(HeadLine + "\n" + "\U{1}\U{2}=\U{3}\U{4}\n" + "\n")
         == Success(Header(31, map["\U{1}\U{2}" := "\U{3}\U{4}"]))
  {
    var es: seq<Entry> := [("\U{1}\U{2}", "\U{3}\U{4}")];
    assert Encode(es) == HeadLine + "\n" + "\U{1}\U{2}=\U{3}\U{4}\n" + "\n" by {
      assert EncodeEntries(es) == EntryLine(es[0]) + [];
      assert EntryLine(es[0]) == "\U{1}\U{2}=\U{3}\U{4}\n";
    }
    assert ToMap(es) == map["\U{1}\U{2}" := "\U{3}\U{4}"] by {
      assert es[1..] == [];
    }
    RoundTrip(es, []);
    assert Encode(es) + [] == Encode(es);
  }
}
