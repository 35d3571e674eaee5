/**
  Writing a configuration and reading it back: what is rebuilt, when the reader gives up, and that
  a second round trip changes nothing.
*/
module RoundTrip {
  import opened ConfigTree
  import opened NormalForm
  import opened Json

  /** The reader rebuilds the normal form, with every check passed and its stack empty, exactly
      when no node has two wholly empty children. */
  lemma WriteThenRead(c: Config)
    requires Keyed(c)
    ensures Tidy(c) ==> Restored(ReadJson(WriteJson(c)), NormRoot(c))
    ensures !Tidy(c) ==> ReadJson(WriteJson(c)) == Rejected
  {
    var start := Step(FRESH, StartObject);
    var body := Emit(c, false);
    RunConcat(FRESH, [StartObject] + body, [EndObject]);
    RunConcat(FRESH, [StartObject], body);
    RunOne(FRESH, StartObject);
    RunOne(Run(start, body), EndObject);
    AddedNone(start);
    RejectedStays([EndObject]);
    if c.IsEmpty() {
      assert Tidy(c);
    } else if c.key == "" {
      var k, members, extra := RunBody(start, c.children);
      assert [] + NormBody(c.children) == NormBody(c.children);
    } else {
      var k := RunValue(start, c, false);
    }
  }

  ghost predicate Restored(r: Reader, c: Config) {
    r.Reader? && r.frames == [] && r.counts == [] && r.head == c
  }

  /** What was read back can be written again, and reading that gives the same tree. */
  lemma SecondRoundTrip(c: Config)
    requires Keyed(c) && Tidy(c)
    ensures var once := ReadJson(WriteJson(c)); once.Reader? && Restored(ReadJson(WriteJson(once.head)), once.head)
  {
    WriteThenRead(c);
    RootWritable(c);
    RootFixed(c);
    WriteThenRead(NormRoot(c));
  }

  /** Two wholly empty children make an array with an empty key, which the reader refuses. */
  lemma TwoEmptyChildrenAreRefused(c: Config)
    requires c == Config("a", "", [Config("", "", []), Config("", "", [])])
    ensures Keyed(c) && ReadJson(WriteJson(c)) == Rejected
  {
    assert c.children[1..] == [Config("", "", [])];
    assert Count(c.children, "") == 2;
    WriteThenRead(c);
  }
}
