/** "Download All as ZIP": one archive entry per result, named after the
    result's file with a `.jpg` extension, holding the base64-decoded payload
    of its data URI. */
module Archive {
  import opened Common
  import Base64
  import DataUri
  import FileNames
  import OptimizeRoute
  import opened Results

  /** An entry as handed to the archive writer: a name and base64 text
      (None when `split(",")[1]` is `undefined`). */
  datatype Entry = Entry(name: string, payload: Option<string>)

  function EntryFor(p: Processed): (e: Entry)
    ensures e.payload.Some? <==> !DataUri.NoComma(p.processedImage)
    ensures FileNames.HasExtension(p.fileName) ==> |e.name| >= 4 && e.name[|e.name| - 4..] == ".jpg"
    ensures !FileNames.HasExtension(p.fileName) ==> e.name == p.fileName
  {
    Entry(FileNames.ToJpgName(p.fileName), DataUri.SecondField(p.processedImage))
  }

  /** The bytes the writer stores for an entry: the decoded payload, None when
      there is no payload or it is not base64. */
  function EntryBytes(e: Entry): (r: Option<seq<byte>>)
    ensures e.payload.None? ==> r.None?
  {
    match e.payload
    case Some(text) => Base64.Decode(text)
    case None => None
  }

  /** An entry whose payload is the base64 text of some bytes stores exactly
      those bytes. */
  lemma EntryBytesOfEncoded(name: string, b: seq<byte>)
    ensures EntryBytes(Entry(name, Some(Base64.Encode(b)))) == Some(b)
  {
    Base64.DecodeEncode(b);
  }

  /** `handleDownloadZip`: no archive at all for an empty result list,
      otherwise one entry per result, in result order. */
  function DownloadZip(rs: seq<Processed>): (z: Option<seq<Entry>>)
    ensures z.None? <==> |rs| == 0
    ensures z.Some? ==> |z.value| == |rs|
    ensures z.Some? ==> forall i :: 0 <= i < |rs| ==>
      && z.value[i].name == FileNames.ToJpgName(rs[i].fileName)
      && z.value[i].payload == DataUri.SecondField(rs[i].processedImage)
  {
    if |rs| == 0 then None else Some(seq(|rs|, i requires 0 <= i < |rs| => EntryFor(rs[i])))
  }

  /** The names the entries carry. */
  function EntryNames(entries: seq<Entry>): (names: set<string>)
    ensures forall i :: 0 <= i < |entries| ==> entries[i].name in names
  {
    if |entries| == 0 then {}
    else EntryNames(entries[..|entries| - 1]) + {entries[|entries| - 1].name}
  }

  /** The archive's contents after adding the entries in order: a later entry
      replaces an earlier one with the same name. */
  function Contents(entries: seq<Entry>): (m: map<string, Option<seq<byte>>>)
    ensures m.Keys == EntryNames(entries)
  {
    if |entries| == 0 then map[]
    else Contents(entries[..|entries| - 1])[entries[|entries| - 1].name := EntryBytes(entries[|entries| - 1])]
  }

  /** Each name in the archive holds the bytes of the last entry with that
      name. */
  lemma {:induction false} ContentsLastWins(entries: seq<Entry>, i: int)
    requires 0 <= i < |entries| && LastWithName(entries, i)
    ensures Contents(entries)[entries[i].name] == EntryBytes(entries[i])
    decreases |entries|
  {
    var init := entries[..|entries| - 1];
    if i < |init| {
      assert init[i] == entries[i];
      assert entries[|entries| - 1].name != entries[i].name;
      assert LastWithName(init, i) by {
        forall j | i < j < |init| ensures init[j].name != init[i].name {
          assert init[j] == entries[j];
        }
      }
      ContentsLastWins(init, i);
    }
  }

  /** No later entry carries the same name as entry `i`. */
  predicate LastWithName(entries: seq<Entry>, i: int)
    requires 0 <= i < |entries|
  {
    forall j :: i < j < |entries| ==> entries[j].name != entries[i].name
  }

  predicate DistinctNames(entries: seq<Entry>) {
    forall i, j :: 0 <= i < j < |entries| ==> entries[i].name != entries[j].name
  }

  /** Every name in the archive comes from some entry. */
  lemma {:induction false} EntryNamesFromEntries(entries: seq<Entry>, n: string)
    requires n in EntryNames(entries)
    ensures exists i :: 0 <= i < |entries| && entries[i].name == n
    decreases |entries|
  {
    var init := entries[..|entries| - 1];
    if n != entries[|entries| - 1].name {
      EntryNamesFromEntries(init, n);
      var i :| 0 <= i < |init| && init[i].name == n;
      assert entries[i] == init[i];
    }
  }

  /** The archive never holds more files than there were entries. */
  lemma {:induction false} ContentsSize(entries: seq<Entry>)
    ensures |Contents(entries).Keys| <= |entries|
    decreases |entries|
  {
    if |entries| > 0 {
      var init := entries[..|entries| - 1];
      ContentsSize(init);
      assert Contents(entries).Keys == Contents(init).Keys + {entries[|entries| - 1].name};
    }
  }

  /** With all names different, the archive holds one file per entry. */
  lemma {:induction false} ContentsSizeDistinct(entries: seq<Entry>)
    requires DistinctNames(entries)
    ensures |Contents(entries).Keys| == |entries|
    decreases |entries|
  {
    if |entries| > 0 {
      var init := entries[..|entries| - 1];
      var last := entries[|entries| - 1].name;
      assert DistinctNames(init) by {
        forall i, j | 0 <= i < j < |init| ensures init[i].name != init[j].name {
          assert init[i] == entries[i] && init[j] == entries[j];
        }
      }
      ContentsSizeDistinct(init);
      if last in EntryNames(init) {
        EntryNamesFromEntries(init, last);
        assert false;
      }
      assert Contents(entries).Keys == Contents(init).Keys + {last};
    }
  }

  /** From upload to archive: the entry for a successful answer is named after
      the uploaded file with a `.jpg` extension and holds exactly the bytes
      the image library produced. */
  lemma ArchiveHoldsEncodedBytes(form: OptimizeRoute.Form, codec: OptimizeRoute.Codec)
    requires OptimizeRoute.Handle(form, codec).Ok?
    ensures var e := EntryFor(FromBody(OptimizeRoute.Handle(form, codec).body));
      && e.name == FileNames.ToJpgName(form.file.value.name)
      && EntryBytes(e) == codec(OptimizeRoute.Plan(form))
  {
    var out := codec(OptimizeRoute.Plan(form)).value;
    DataUri.PayloadOfJpegDataUri(out);
    Base64.DecodeEncode(out);
  }

  /** Two results whose names differ only in extension (`cat.png` and
      `cat.jpeg`, say) land on the same archive name, and the archive keeps
      one file: the later one. */
  lemma SameStemCollides(p1: Processed, p2: Processed)
    requires FileNames.ToJpgName(p1.fileName) == FileNames.ToJpgName(p2.fileName)
    ensures DownloadZip([p1, p2]).Some?
    ensures |Contents(DownloadZip([p1, p2]).value).Keys| == 1
    ensures Contents(DownloadZip([p1, p2]).value)[FileNames.ToJpgName(p1.fileName)] == EntryBytes(EntryFor(p2))
  {
    var entries := DownloadZip([p1, p2]).value;
    assert entries == [EntryFor(p1), EntryFor(p2)];
    ContentsOfTwo(EntryFor(p1), EntryFor(p2));
    ContentsLastWins(entries, 1);
  }

  lemma ContentsOfTwo(e1: Entry, e2: Entry)
    ensures Contents([e1, e2]).Keys == {e1.name, e2.name}
  {
    assert [e1, e2][..1] == [e1];
    assert [e1][..0] == [];
  }
}
