/** The `POST /api/optimize` endpoint: read the multipart form, default and
    validate its fields, run the image library once, and answer with the JPEG
    as a data URI plus the byte counts before and after. */
module OptimizeRoute {
  import opened Common
  import Decimal
  import DataUri

  datatype Fit = Cover | Fill

  /** A target box for the image library's resize step. */
  datatype Preset = Preset(width: nat, height: nat, fit: Fit)

  /** The fixed preset catalog, keyed by the form's `preset` value. */
  const Presets: map<string, Preset> := map[
    "instagram" := Preset(1080, 1080, Cover),
    "story" := Preset(1080, 1920, Cover),
    "twitter" := Preset(1200, 675, Cover),
    "original" := Preset(0, 0, Fill)
  ]

  const DefaultPreset: string := "instagram"
  const DefaultQualityText: string := "80"
  const KeepOriginal: string := "original"

  /** An uploaded file: its name and its bytes. */
  datatype Upload = Upload(name: string, bytes: seq<byte>)

  /** The multipart form as the endpoint reads it; None is a missing field. */
  datatype Form = Form(file: Option<Upload>, preset: Option<string>, quality: Option<string>)

  /** One use of the image library: decode `input`, resize it when `resize`
      is given, encode as JPEG with `quality` (None stands for `NaN`). */
  datatype Call = Call(input: seq<byte>, resize: Option<Preset>, quality: Option<int>)

  /** The image library, seen from outside: the encoded bytes, or None when it
      throws (undecodable input, a quality it refuses, ...). */
  type Codec = Call -> Option<seq<byte>>

  /** The JSON body of a successful answer. */
  datatype Body = Body(fileName: string, processedImage: string, originalSize: nat, newSize: nat)

  /** `Ok` is a 200 with a body; `Rejected` a JSON error with a status; the
      library throwing escapes the handler (`Crashed`), which the framework
      answers with a non-success status. */
  datatype Response = Ok(body: Body) | Rejected(status: nat, error: string) | Crashed

  /** `data.get("preset") || "instagram"`: a missing or empty field defaults. */
  function PresetName(form: Form): (name: string)
    ensures name != ""
    ensures form.preset.None? || form.preset == Some("") ==> name == DefaultPreset
    ensures form.preset.Some? && form.preset.value != "" ==> name == form.preset.value
  {
    match form.preset
    case Some(p) => if p == "" then DefaultPreset else p
    case None => DefaultPreset
  }

  /** `parseInt(data.get("quality") || "80", 10)`. */
  function Quality(form: Form): (q: Option<int>)
    ensures form.quality.None? || form.quality == Some("") ==> q == Some(80)
    ensures form.quality.Some? && form.quality.value != "" ==> q == Decimal.ParseInt(form.quality.value)
  {
    var text := match form.quality
      case Some(q) => if q == "" then DefaultQualityText else q
      case None => DefaultQualityText;
    DefaultQualityValue();
    Decimal.ParseInt(text)
  }

  /** The default quality text reads as 80. */
  lemma DefaultQualityValue()
    ensures Decimal.ParseInt(DefaultQualityText) == Some(80)
  {
    Decimal.ParseIntOfIntToDecimal(80);
    assert Decimal.IntToDecimal(80) == "80" by {
      assert Decimal.NatToDecimal(8) == "8";
    }
  }

  /** The request passes the gate: a file is present and the preset is a
      catalog key. */
  predicate Valid(form: Form)
    ensures Valid(form) <==>
      && form.file.Some?
      && (form.preset.None? || form.preset.value in {"", "instagram", "story", "twitter", "original"})
  {
    form.file.Some? && PresetName(form) in Presets
  }

  /** The library call a valid request makes: the uploaded bytes, a resize to
      the preset's box unless the preset is `original`, and the parsed quality. */
  function Plan(form: Form): (call: Call)
    requires Valid(form)
    ensures call.input == form.file.value.bytes
    ensures call.resize.None? <==> PresetName(form) == KeepOriginal
    ensures call.resize.Some? ==> call.resize.value == Presets[PresetName(form)]
    ensures call.quality == Quality(form)
  {
    var name := PresetName(form);
    var resize := if name != KeepOriginal then Some(Presets[name]) else None;
    Call(form.file.value.bytes, resize, Quality(form))
  }

  /** The handler: reject before touching the file, otherwise run the library
      once and report the file name, the data URI and both byte counts. */
  function Handle(form: Form, codec: Codec): (r: Response)
    ensures r.Rejected? <==> !Valid(form)
    ensures r.Rejected? ==> r.status == 400 && r.error == "Invalid input"
    ensures r.Crashed? <==> Valid(form) && codec(Plan(form)).None?
    ensures r.Ok? ==>
      && Valid(form)
      && codec(Plan(form)).Some?
      && r.body.fileName == form.file.value.name
      && r.body.originalSize == |form.file.value.bytes|
      && r.body.newSize == |codec(Plan(form)).value|
      && r.body.processedImage == DataUri.JpegDataUri(codec(Plan(form)).value)
  {
    if !Valid(form) then Rejected(400, "Invalid input")
    else
      var file := form.file.value;
      match codec(Plan(form))
      case None => Crashed
      case Some(out) => Ok(Body(file.name, DataUri.JpegDataUri(out), |file.bytes|, |out|))
  }

  /** The catalog holds exactly four presets with these boxes. */
  lemma PresetCatalog()
    ensures Presets.Keys == {"instagram", "story", "twitter", "original"}
    ensures Presets["instagram"] == Preset(1080, 1080, Cover)
    ensures Presets["story"] == Preset(1080, 1920, Cover)
    ensures Presets["twitter"] == Preset(1200, 675, Cover)
    ensures Presets["original"] == Preset(0, 0, Fill)
  {
  }

  /** A missing or empty `preset` field means `instagram`; a missing or empty
      `quality` field means 80. */
  lemma FieldDefaults(file: Upload, preset: Option<string>, quality: Option<string>)
    requires preset == None || preset == Some("")
    requires quality == None || quality == Some("")
    ensures Valid(Form(Some(file), preset, quality))
    ensures Plan(Form(Some(file), preset, quality)) == Call(file.bytes, Some(Preset(1080, 1080, Cover)), Some(80))
  {
  }

  /** A rejected request never reaches the image library: the answer is the
      same whatever the library would have done. */
  lemma RejectionIgnoresCodec(form: Form, c1: Codec, c2: Codec)
    requires form.file.None? || PresetName(form) !in Presets
    ensures Handle(form, c1) == Handle(form, c2) == Rejected(400, "Invalid input")
  {
  }

  /** An unknown preset name is rejected even when a file is present. */
  lemma UnknownPresetRejected(file: Upload, codec: Codec)
    ensures Handle(Form(Some(file), Some("bogus"), None), codec) == Rejected(400, "Invalid input")
  {
  }

  /** Any integer quality the client writes out reaches the encoder unchanged:
      there is no clamping to 1..100 on the way. */
  lemma QualityPassedUnchanged(form: Form, q: int)
    requires Valid(form)
    requires form.quality == Some(Decimal.IntToDecimal(q))
    ensures Plan(form).quality == Some(q)
  {
    Decimal.ParseIntOfIntToDecimal(q);
  }

  /** For a valid request and a library that succeeds, the answer is a 200
      whose sizes are the input's and the output's lengths. */
  lemma ValidRequestSucceeds(form: Form, codec: Codec)
    requires Valid(form)
    requires codec(Plan(form)).Some?
    ensures Handle(form, codec).Ok?
    ensures Handle(form, codec).body.originalSize == |form.file.value.bytes|
    ensures Handle(form, codec).body.newSize == |codec(Plan(form)).value|
  {
  }
}
