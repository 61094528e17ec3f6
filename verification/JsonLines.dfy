/** JSON-lines files: what a sequence of records looks like as bytes. */
module JsonLines {
  import opened Common

  type Bytes = seq<int>

  const NEWLINE := 10

  /** json.Marshal; None when it fails, and the record is skipped. */
  type Marshal<!T> = T -> Option<Bytes>

  function Line<T>(marshal: Marshal<T>, x: T): Bytes {
    match marshal(x)
    case Some(data) => data + [NEWLINE]
    case None => []
  }

  function Encoded<T>(marshal: Marshal<T>, xs: seq<T>): Bytes {
    if xs == [] then [] else Encoded(marshal, xs[..|xs| - 1]) + Line(marshal, xs[|xs| - 1])
  }

  lemma EncodedAppend<T>(marshal: Marshal<T>, xs: seq<T>, x: T)
    ensures Encoded(marshal, xs + [x]) == Encoded(marshal, xs) + Line(marshal, x)
  {
    assert (xs + [x])[..|xs|] == xs;
  }

  // ---------- reading the bytes back ----------

  /** The records of a file, each terminated by byte 10, and what follows the last of them. */
  function Records(b: Bytes): (seq<Bytes>, Bytes) {
    if b == [] then ([], [])
    else
      var (records, rest) := Records(b[..|b| - 1]);
      if b[|b| - 1] == 10 then (records + [rest], []) else (records, rest + [b[|b| - 1]])
  }

  /** What marshalling made of the records, in order, without those it failed on. */
  function Outputs<T>(marshal: Marshal<T>, xs: seq<T>): seq<Bytes> {
    if xs == [] then []
    else
      var before, last := Outputs(marshal, xs[..|xs| - 1]), marshal(xs[|xs| - 1]);
      if last.Some? then before + [last.value] else before
  }

  /** As with JSON, no output of marshalling contains a newline. */
  ghost predicate OneLiners<T>(marshal: Marshal<T>, xs: seq<T>) {
    forall x :: x in xs && marshal(x).Some? ==> 10 !in marshal(x).value
  }

  lemma {:induction false} RecordsText(b: Bytes, text: Bytes)
    requires 10 !in text
    ensures Records(b + text) == (Records(b).0, Records(b).1 + text)
  {
    if text == [] {
      assert b + text == b && Records(b).1 + text == Records(b).1;
    } else {
      RecordsText(b, text[..|text| - 1]);
      assert (b + text)[..|b + text| - 1] == b + text[..|text| - 1];
      assert Records(b).1 + text[..|text| - 1] + [text[|text| - 1]] == Records(b).1 + text;
    }
  }

  /** The file is exactly the marshalled records: reading it line by line returns what marshalling made of each of
      them, in order, and nothing is left over. */
  lemma {:induction false} EncodedSplits<T>(marshal: Marshal<T>, xs: seq<T>)
    requires OneLiners(marshal, xs)
    ensures Records(Encoded(marshal, xs)) == (Outputs(marshal, xs), [])
  {
    if xs == [] {
    } else {
      var front, x := xs[..|xs| - 1], xs[|xs| - 1];
      EncodedSplits(marshal, front);
      var b := Encoded(marshal, front);
      if marshal(x).Some? {
        var text := marshal(x).value;
        RecordsText(b, text);
        RecordsNewline(b + text);
        assert [] + text == text && b + Line(marshal, x) == b + text + [10];
      } else {
        assert b + [] == b;
      }
    }
  }

  lemma RecordsNewline(b: Bytes)
    ensures Records(b + [10]) == (Records(b).0 + [Records(b).1], [])
  {
    assert (b + [10])[..|b|] == b;
  }
}
