/** The `data:image/jpeg;base64,<payload>` text the optimize endpoint returns,
    and the client's `processedImage.split(",")[1]` that takes the payload
    back out of it. */
module DataUri {
  import opened Common
  import Base64

  /** Everything in front of the payload; its only comma is its last character. */
  const JpegPrefix: string := "data:image/jpeg;base64,"

  /** The `processedImage` string for JPEG bytes `out`. */
  function JpegDataUri(out: seq<byte>): (uri: string)
    ensures |uri| == |JpegPrefix| + |Base64.Encode(out)|
    ensures uri[..|JpegPrefix|] == JpegPrefix
    ensures uri[|JpegPrefix|..] == Base64.Encode(out)
  {
    JpegPrefix + Base64.Encode(out)
  }

  predicate NoComma(s: string) {
    forall i :: 0 <= i < |s| ==> s[i] != ','
  }

  /** `s.split(",")`: the maximal comma-free pieces between commas, always at
      least one (the empty string splits into `[""]`). */
  function Split(s: string): (fields: seq<string>)
    ensures |fields| >= 1
    ensures forall j :: 0 <= j < |fields| ==> NoComma(fields[j])
  {
    if |s| == 0 then [""]
    else if s[0] == ',' then [""] + Split(s[1..])
    else
      var rest := Split(s[1..]);
      [[s[0]] + rest[0]] + rest[1..]
  }

  /** `fields.join(",")`, the inverse of `Split`. */
  function Join(fields: seq<string>): string
    requires |fields| >= 1
  {
    if |fields| == 1 then fields[0] else fields[0] + "," + Join(fields[1..])
  }

  /** Splitting loses nothing: joining the pieces with commas gives the text back. */
  lemma {:induction false} JoinSplit(s: string)
    ensures Join(Split(s)) == s
    decreases |s|
  {
    if |s| > 0 {
      JoinSplit(s[1..]);
      var rest := Split(s[1..]);
      if s[0] == ',' {
        assert Split(s)[1..] == rest;
        assert s == [','] + s[1..];
      } else {
        var fields := Split(s);
        assert fields[0] == [s[0]] + rest[0];
        if |rest| > 1 {
          assert fields[1..] == rest[1..];
          assert Join(rest) == rest[0] + "," + Join(rest[1..]);
        }
        assert s == [s[0]] + s[1..];
      }
    }
  }

  /** Text without commas is a single piece. */
  lemma {:induction false} SplitNoComma(s: string)
    requires NoComma(s)
    ensures Split(s) == [s]
    decreases |s|
  {
    if |s| > 0 {
      SplitNoComma(s[1..]);
      assert s == [s[0]] + s[1..];
    }
  }

  /** The first comma of `a + "," + b` ends the first piece when `a` has none. */
  lemma {:induction false} SplitAtFirstComma(a: string, b: string)
    requires NoComma(a)
    ensures Split(a + "," + b) == [a] + Split(b)
    decreases |a|
  {
    var s := a + "," + b;
    if |a| == 0 {
      assert s == [','] + b;
      assert s[1..] == b;
    } else {
      assert s[1..] == a[1..] + "," + b;
      SplitAtFirstComma(a[1..], b);
      assert a == [a[0]] + a[1..];
    }
  }

  /** `s.split(",")[1]`: the piece after the first comma; None (JavaScript
      `undefined`) when there is no comma. */
  function SecondField(s: string): (r: Option<string>)
    ensures r.Some? <==> !NoComma(s)
    ensures r.Some? ==> NoComma(r.value)
  {
    var fields := Split(s);
    SplitCommaCount(s);
    if |fields| > 1 then Some(fields[1]) else None
  }

  /** A text with a comma splits into at least two pieces, and conversely. */
  lemma {:induction false} SplitCommaCount(s: string)
    ensures |Split(s)| > 1 <==> !NoComma(s)
    decreases |s|
  {
    if |s| > 0 {
      SplitCommaCount(s[1..]);
      if s[0] != ',' {
        assert NoComma(s) <==> NoComma(s[1..]) by {
          if NoComma(s[1..]) {
            forall i | 0 <= i < |s| ensures s[i] != ',' {
              if i > 0 { assert s[i] == s[1..][i - 1]; }
            }
          }
        }
      }
    }
  }

  /** The client's payload extraction recovers exactly the base64 text the
      endpoint put after the prefix. */
  lemma PayloadOfJpegDataUri(out: seq<byte>)
    ensures SecondField(JpegDataUri(out)) == Some(Base64.Encode(out))
  {
    var head := "data:image/jpeg;base64";
    var payload := Base64.Encode(out);
    assert NoComma(head);
    Base64.EncodeCharset(out);
    assert NoComma(payload) by {
      forall i | 0 <= i < |payload| ensures payload[i] != ',' {
        assert Base64.InAlphabet(payload[i]) || payload[i] == '=';
      }
    }
    assert JpegPrefix == head + ",";
    SplitAtFirstComma(head, payload);
    SplitNoComma(payload);
    assert head + "," + payload == JpegDataUri(out);
  }
}
