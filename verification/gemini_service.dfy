/** The pure part of the image-editing API client: stripping the data-URL
    prefix, choosing the prompt, building the request, and picking the first
    inline image out of the model's reply. The remote call is not modelled:
    its reply is an input. */
module GeminiService {
  import opened Wrappers

  // ---------------------------------------------------------------------
  // String.prototype.split with a one-character separator, and its inverse
  // ---------------------------------------------------------------------

  /** Joins the pieces with `sep` between consecutive ones. */
  function Join(parts: seq<string>, sep: char): (r: string)
    requires |parts| >= 1
    decreases |parts|
  {
    if |parts| == 1 then parts[0] else parts[0] + [sep] + Join(parts[1..], sep)
  }

  /** `s.split(sep)`: the maximal separator-free pieces of `s`, in order; at
      least one piece, empty pieces included. */
  function Split(s: string, sep: char): (parts: seq<string>)
    ensures |parts| >= 1
    ensures forall i :: 0 <= i < |parts| ==> sep !in parts[i]
    ensures |parts| == 1 <==> sep !in s
    decreases |s|
  {
    if s == [] then [""]
    else if s[0] == sep then [""] + Split(s[1..], sep)
    else
      var rest := Split(s[1..], sep);
      [[s[0]] + rest[0]] + rest[1..]
  }

  /** Joining the pieces gives back the split string. */
  lemma {:induction false} JoinSplit(s: string, sep: char)
    ensures Join(Split(s, sep), sep) == s
    decreases |s|
  {
    if s != [] {
      var rest := Split(s[1..], sep);
      JoinSplit(s[1..], sep);
      if s[0] == sep {
        JoinCons("", rest, sep);
      } else {
        JoinExtendFirst(s[0], rest, sep);
      }
      assert s == [s[0]] + s[1..];
    }
  }

  /** Joining a piece in front of at least one other adds a separator. */
  lemma JoinCons(x: string, rest: seq<string>, sep: char)
    requires |rest| >= 1
    ensures Join([x] + rest, sep) == x + [sep] + Join(rest, sep)
  {
  }

  /** A character added to the first piece comes first in the join. */
  lemma JoinExtendFirst(c: char, parts: seq<string>, sep: char)
    requires |parts| >= 1
    ensures Join([[c] + parts[0]] + parts[1..], sep) == [c] + Join(parts, sep)
  {
  }

  /** A separator-free prefix is glued onto the first piece of what follows. */
  lemma {:induction false} SplitAfterPlainPrefix(a: string, t: string, sep: char)
    requires sep !in a
    ensures Split(a + t, sep) == [a + Split(t, sep)[0]] + Split(t, sep)[1..]
    decreases |a|
  {
    if a != [] {
      var u := a + t;
      assert u[0] == a[0] && u[1..] == a[1..] + t;
      var rest := Split(u[1..], sep);
      assert Split(u, sep) == [[u[0]] + rest[0]] + rest[1..];
      SplitAfterPlainPrefix(a[1..], t, sep);
      assert [a[0]] + (a[1..] + Split(t, sep)[0]) == a + Split(t, sep)[0];
    } else {
      var parts := Split(t, sep);
      assert a + t == t && a + parts[0] == parts[0];
      assert parts == [parts[0]] + parts[1..];
    }
  }

  /** Splitting undoes joining separator-free pieces. */
  lemma {:induction false} SplitJoin(parts: seq<string>, sep: char)
    requires |parts| >= 1
    requires forall i :: 0 <= i < |parts| ==> sep !in parts[i]
    ensures Split(Join(parts, sep), sep) == parts
    decreases |parts|
  {
    if |parts| == 1 {
      SplitAfterPlainPrefix(parts[0], "", sep);
      assert parts[0] + "" == parts[0];
    } else {
      var tail := [sep] + Join(parts[1..], sep);
      assert Join(parts, sep) == parts[0] + tail;
      SplitAfterPlainPrefix(parts[0], tail, sep);
      SplitJoin(parts[1..], sep);
      assert tail[0] == sep && tail[1..] == Join(parts[1..], sep);
      assert Split(tail, sep) == [""] + parts[1..];
      assert parts[0] + "" == parts[0];
      assert [parts[0]] + parts[1..] == parts;
    }
  }

  // ---------------------------------------------------------------------
  // cleanBase64
  // ---------------------------------------------------------------------

  /** `dataUrl.split(',')[1]`: the text between the first comma and the next
      one (or the end); `undefined` when there is no comma. */
  function CleanBase64(dataUrl: string): (r: Option<string>)
    ensures r.None? <==> ',' !in dataUrl
    ensures r.Some? ==> ',' !in r.value
  {
    var parts := Split(dataUrl, ',');
    if |parts| > 1 then Some(parts[1]) else None
  }

  /** For `p + "," + d + tail`, with `p` and `d` comma-free and `tail` empty or
      starting at the next comma, `cleanBase64` returns exactly `d`. With an
      empty `tail` this is the data URL `<header>,<payload>` of RFC 2397. */
  lemma CleanBase64OfDataUrl(p: string, d: string, tail: string)
    requires ',' !in p && ',' !in d
    requires tail == [] || tail[0] == ','
    ensures CleanBase64(p + [','] + d + tail) == Some(d)
  {
    var after := d + tail;
    assert p + [','] + d + tail == p + ([','] + after);
    SplitAfterPlainPrefix(p, [','] + after, ',');
    assert ([','] + after)[1..] == after;
    SplitAfterPlainPrefix(d, tail, ',');
    if tail == [] {
      assert Split(tail, ',') == [""];
    } else {
      assert tail == [','] + tail[1..];
    }
    assert d + Split(tail, ',')[0] == d;
  }

  // ---------------------------------------------------------------------
  // Prompt selection
  // ---------------------------------------------------------------------

  datatype EditMode = General | Eraser

  // The prompt texts are written as concatenations of short literals: the
  // verifier reads short literals character by character much more cheaply.

  const EraserPrompt: string :=
    "The user has marked specific areas"
    + " of this image with RED strokes/scribbles."
    + " Your task is to act as a 'Magic Eraser'."
    + " Remove the red markings AND the objects"
    + " or defects underneath them."
    + " Inpaint the removed areas to match the surrounding background seamlessly,"
    + " ensuring high consistency and natural lighting."
    + " Do NOT leave any red marks."

  const BasePrompt: string := "You are an expert image editor. "

  /** The template puts a space after `BasePrompt`, which already ends in one. */
  const DefaultRequest: string :=
    " Remove all watermarks, text overlays,"
    + " logos, and copyright stamps from this image."
    + " Reconstruct the background where the watermarks were removed to look natural."

  const DefaultPrompt: string := BasePrompt + DefaultRequest

  const InstructionLead: string := " Follow this instruction strictly: "

  const InstructionHead: string := BasePrompt + InstructionLead

  const InstructionTail: string :=
    ". If the instruction implies removing something,"
    + " fill the background naturally."
    + " If it implies style transfer (like filters),"
    + " apply it while keeping the main subject intact."

  /** The characters removed by `String.prototype.trim`: ECMAScript WhiteSpace
      and LineTerminator, by code point. */
  predicate IsWhiteSpace(c: char) {
    var n := c as int;
    n == 0x09 || n == 0x0A || n == 0x0B || n == 0x0C || n == 0x0D || n == 0x20
    || n == 0xA0 || n == 0x1680 || (0x2000 <= n <= 0x200A) || n == 0x2028
    || n == 0x2029 || n == 0x202F || n == 0x205F || n == 0x3000 || n == 0xFEFF
  }

  /** Drops leading white space. */
  function TrimStart(s: string): (r: string)
    ensures |r| <= |s| && r == s[|s| - |r|..]
    ensures forall i :: 0 <= i < |s| - |r| ==> IsWhiteSpace(s[i])
    ensures r != [] ==> !IsWhiteSpace(r[0])
    decreases |s|
  {
    if s != [] && IsWhiteSpace(s[0]) then TrimStart(s[1..]) else s
  }

  /** Drops trailing white space. */
  function TrimEnd(s: string): (r: string)
    ensures |r| <= |s| && r == s[..|r|]
    ensures forall i :: |r| <= i < |s| ==> IsWhiteSpace(s[i])
    ensures r != [] ==> !IsWhiteSpace(r[|r| - 1])
    decreases |s|
  {
    if s != [] && IsWhiteSpace(s[|s| - 1]) then TrimEnd(s[..|s| - 1]) else s
  }

  /** `s.trim()` */
  function Trim(s: string): (r: string)
    ensures |r| <= |s|
    ensures r != [] ==> !IsWhiteSpace(r[0]) && !IsWhiteSpace(r[|r| - 1])
    ensures exists a, b :: 0 <= a <= b <= |s| && r == s[a..b]
  {
    var t := TrimStart(s);
    var e := TrimEnd(t);
    assert e == s[|s| - |t|..|s| - |t| + |e|];
    e
  }

  /** `s.trim() === ""` holds exactly for the strings made only of white space. */
  lemma TrimEmptyIffBlank(s: string)
    ensures Trim(s) == "" <==> forall i :: 0 <= i < |s| ==> IsWhiteSpace(s[i])
  {
  }

  /** `!customInstruction || customInstruction.trim() === ""` */
  predicate NoInstruction(customInstruction: Option<string>) {
    customInstruction.None? || customInstruction.value == "" || Trim(customInstruction.value) == ""
  }

  /** The prompt sent with the image. */
  function SystemPrompt(mode: EditMode, customInstruction: Option<string>): (r: string)
    ensures mode == Eraser ==> r == EraserPrompt
    ensures mode == General && NoInstruction(customInstruction) ==> r == DefaultPrompt
    ensures mode == General && !NoInstruction(customInstruction) ==>
      r == InstructionHead + customInstruction.value + InstructionTail
  {
    if mode == Eraser then EraserPrompt
    else if NoInstruction(customInstruction) then DefaultPrompt
    else InstructionHead + customInstruction.value + InstructionTail
  }

  /** The default prompt starts with `BasePrompt`. */
  lemma DefaultPromptShape()
    ensures |BasePrompt| <= |DefaultPrompt| && DefaultPrompt[..|BasePrompt|] == BasePrompt
  {
  }

  /** A prompt built from an instruction starts with `BasePrompt` and holds
      the instruction verbatim between the fixed head and tail. */
  lemma InstructionPromptShape(ci: string)
    ensures var r := InstructionHead + ci + InstructionTail;
      |r| == |InstructionHead| + |ci| + |InstructionTail|
      && r[..|BasePrompt|] == BasePrompt
      && r[..|InstructionHead|] == InstructionHead
      && r[|InstructionHead|..|InstructionHead| + |ci|] == ci
      && r[|InstructionHead| + |ci|..] == InstructionTail
  {
  }

  /** Every general-mode prompt starts with `BasePrompt`. */
  lemma GeneralPromptStartsWithBase(customInstruction: Option<string>)
    ensures var r := SystemPrompt(General, customInstruction);
      |BasePrompt| <= |r| && r[..|BasePrompt|] == BasePrompt
  {
  }

  /** The characters at which the three kinds of prompt first differ. */
  lemma PromptMarkers()
    ensures EraserPrompt[0] == 'T'
    ensures BasePrompt[0] == 'Y'
    ensures DefaultPrompt[|BasePrompt| + 1] == 'R'
    ensures InstructionHead[|BasePrompt| + 1] == 'F'
  {
  }

  /** The prompt identifies the mode, whether an instruction was given, and
      the instruction itself. */
  lemma PromptIdentifiesRequest(m1: EditMode, c1: Option<string>, m2: EditMode, c2: Option<string>)
    requires SystemPrompt(m1, c1) == SystemPrompt(m2, c2)
    ensures m1 == m2
    ensures m1 == General ==> (NoInstruction(c1) <==> NoInstruction(c2))
    ensures m1 == General && !NoInstruction(c1) ==> c1.value == c2.value
  {
    PromptMarkers();
    if m1 != m2 {
      GeneralPromptStartsWithBase(if m1 == General then c1 else c2);
      assert false;
    }
    if m1 == General {
      DefaultPromptShape();
      if !NoInstruction(c1) {
        InstructionPromptShape(c1.value);
      }
      if !NoInstruction(c2) {
        InstructionPromptShape(c2.value);
      }
    }
  }

  // ---------------------------------------------------------------------
  // The request and the reply
  // ---------------------------------------------------------------------

  const ModelName: string := "gemini-2.5-flash-image"

  /** The single request: model, inline image (payload and MIME type) and the
      prompt text. `data` is absent when the data URL has no comma. */
  datatype Request = Request(model: string, data: Option<string>, mimeType: string, prompt: string)

  function BuildRequest(imageBase64: string, mimeType: string, mode: EditMode, customInstruction: Option<string>): (req: Request)
    ensures req.model == ModelName && req.mimeType == mimeType
    ensures req.data == CleanBase64(imageBase64)
    ensures req.data.None? <==> ',' !in imageBase64
    ensures req.data.Some? ==> ',' !in req.data.value
    ensures req.prompt == SystemPrompt(mode, customInstruction)
  {
    Request(ModelName, CleanBase64(imageBase64), mimeType, SystemPrompt(mode, customInstruction))
  }

  /** For a data URL `<header>,<payload>` the request carries exactly the
      payload, with the prompt chosen for the mode and instruction. */
  lemma RequestCarriesPayload(header: string, payload: string, mimeType: string, mode: EditMode, customInstruction: Option<string>)
    requires ',' !in header && ',' !in payload
    ensures var req := BuildRequest(header + [','] + payload, mimeType, mode, customInstruction);
      req.data == Some(payload) && req.prompt == SystemPrompt(mode, customInstruction)
  {
    CleanBase64OfDataUrl(header, payload, "");
    assert header + [','] + payload + "" == header + [','] + payload;
  }

  datatype InlineData = InlineData(data: Option<string>, mimeType: Option<string>)
  datatype Part = Part(inlineData: Option<InlineData>, text: Option<string>)
  datatype Content = Content(parts: Option<seq<Part>>)
  datatype Candidate = Candidate(content: Option<Content>)
  datatype Response = Response(candidates: Option<seq<Candidate>>)

  datatype EditError =
    | NoImageData        // "No image data returned from Gemini."
    | MalformedResponse  // a TypeError from reading a missing first candidate or its content
    | TransportFailure   // the remote call itself rejected

  const PngPrefix: string := "data:image/png;base64,"

  /** `part.inlineData && part.inlineData.data`: the data is present and non-empty. */
  predicate CarriesImage(p: Part) {
    p.inlineData.Some? && p.inlineData.value.data.Some? && p.inlineData.value.data.value != ""
  }

  function ImageData(p: Part): (d: string)
    requires CarriesImage(p)
    ensures d != ""
  {
    p.inlineData.value.data.value
  }

  /** The position of the first part that carries an image. */
  function FirstImageIndex(parts: seq<Part>): (r: Option<nat>)
    ensures r.Some? ==> r.value < |parts| && CarriesImage(parts[r.value])
    ensures r.Some? ==> forall j :: 0 <= j < r.value ==> !CarriesImage(parts[j])
    ensures r.None? <==> forall j :: 0 <= j < |parts| ==> !CarriesImage(parts[j])
  {
    if parts == [] then None
    else if CarriesImage(parts[0]) then Some(0)
    else match FirstImageIndex(parts[1..])
      case None => None
      case Some(k) => Some(k + 1)
  }

  /** The image returned by the scan of `parts`, re-wrapped as a PNG data URL. */
  function ImageFromParts(parts: seq<Part>): (r: Option<string>)
    ensures r.None? <==> forall j :: 0 <= j < |parts| ==> !CarriesImage(parts[j])
    ensures r.Some? ==> |PngPrefix| < |r.value| && r.value[..|PngPrefix|] == PngPrefix
    ensures r.Some? ==> r.value == PngPrefix + ImageData(parts[FirstImageIndex(parts).value])
  {
    match FirstImageIndex(parts)
    case None => None
    case Some(k) => Some(PngPrefix + ImageData(parts[k]))
  }

  /** The parts the client scans, or the TypeError raised on the way to them.
      An absent parts list and an empty one end in the same failure, so both
      are given as the empty sequence. */
  function PartsToScan(response: Response): (r: Result<seq<Part>, EditError>)
    ensures r.Failure? <==>
      response.candidates.Some? && (response.candidates.value == [] || response.candidates.value[0].content.None?)
    ensures r.Failure? ==> r.error == MalformedResponse
    ensures response.candidates.None? ==> r == Success([])
    ensures r.Success? && response.candidates.Some? ==>
      r.value == (match response.candidates.value[0].content.value.parts
                  case None => []
                  case Some(parts) => parts)
  {
    match response.candidates
    case None => Success([])
    case Some(cands) =>
      if cands == [] || cands[0].content.None? then Failure(MalformedResponse)
      else match cands[0].content.value.parts
        case None => Success([])
        case Some(parts) => Success(parts)
  }

  /** What `editImage` yields for a reply from the remote call. */
  function EditOutcome(response: Response): (r: Result<string, EditError>)
    ensures r.Success? <==> PartsToScan(response).Success? && exists j :: 0 <= j < |PartsToScan(response).value| && CarriesImage(PartsToScan(response).value[j])
    ensures r.Success? ==> |PngPrefix| < |r.value| && r.value[..|PngPrefix|] == PngPrefix
    ensures r == Failure(MalformedResponse) <==> response.candidates.Some? && (response.candidates.value == [] || response.candidates.value[0].content.None?)
    ensures r.Success? ==> ImageFromParts(PartsToScan(response).value) == Some(r.value)
    ensures r == Failure(NoImageData) <==> PartsToScan(response).Success? && forall j :: 0 <= j < |PartsToScan(response).value| ==> !CarriesImage(PartsToScan(response).value[j])
    ensures r.Failure? ==> r.error != TransportFailure
  {
    match PartsToScan(response)
    case Failure(e) => Failure(e)
    case Success(parts) =>
      match ImageFromParts(parts)
      case Some(img) => Success(img)
      case None => Failure(NoImageData)
  }

  /** The `for` loop over the parts, with its early return. */
  method ScanParts(parts: seq<Part>) returns (r: Option<string>)
    ensures r == ImageFromParts(parts)
  {
    for i := 0 to |parts|
      invariant forall j :: 0 <= j < i ==> !CarriesImage(parts[j])
    {
      if CarriesImage(parts[i]) {
        assert FirstImageIndex(parts) == Some(i);
        return Some(PngPrefix + ImageData(parts[i]));
      }
    }
    return None;
  }

  /** The extraction step of `editImage`, after the reply has arrived. */
  method ExtractImage(response: Response) returns (r: Result<string, EditError>)
    ensures r == EditOutcome(response)
  {
    if response.candidates.Some? {
      var cands := response.candidates.value;
      if cands == [] || cands[0].content.None? {
        return Failure(MalformedResponse);
      }
      var parts := cands[0].content.value.parts;
      if parts.Some? {
        var img := ScanParts(parts.value);
        if img.Some? {
          return Success(img.value);
        }
      }
    }
    return Failure(NoImageData);
  }

  /** `editImage`: the request it sends, and its outcome for the given reply
      (`None` when the remote call rejects). */
  method EditImage(imageBase64: string, mimeType: string, mode: EditMode, customInstruction: Option<string>, reply: Option<Response>)
    returns (request: Request, r: Result<string, EditError>)
    ensures request == BuildRequest(imageBase64, mimeType, mode, customInstruction)
    ensures reply.None? ==> r == Failure(TransportFailure)
    ensures reply.Some? ==> r == EditOutcome(reply.value)
  {
    request := BuildRequest(imageBase64, mimeType, mode, customInstruction);
    if reply.None? {
      return request, Failure(TransportFailure);
    }
    r := ExtractImage(reply.value);
  }

  // ---------------------------------------------------------------------
  // Properties of the scan
  // ---------------------------------------------------------------------

  /** Parts after the first image are ignored. */
  lemma ScanIgnoresLaterParts(parts: seq<Part>, more: seq<Part>)
    requires ImageFromParts(parts).Some?
    ensures ImageFromParts(parts + more) == ImageFromParts(parts)
  {
    var k := FirstImageIndex(parts).value;
    assert (parts + more)[k] == parts[k];
    var k' := FirstImageIndex(parts + more).value;
    assert k' == k;
  }

  /** Leading parts without an image are skipped. */
  lemma {:induction false} ScanSkipsLeadingParts(skipped: seq<Part>, parts: seq<Part>)
    requires forall j :: 0 <= j < |skipped| ==> !CarriesImage(skipped[j])
    ensures ImageFromParts(skipped + parts) == ImageFromParts(parts)
    decreases |skipped|
  {
    if skipped != [] {
      var all := skipped + parts;
      assert all[1..] == skipped[1..] + parts;
      assert !CarriesImage(all[0]);
      ScanSkipsLeadingParts(skipped[1..], parts);
      match FirstImageIndex(all[1..])
      case None =>
      case Some(k) =>
        assert all[k + 1] == all[1..][k];
    } else {
      assert skipped + parts == parts;
    }
  }

  /** Only the first candidate is read. */
  lemma OnlyFirstCandidateCounts(c: Candidate, rest1: seq<Candidate>, rest2: seq<Candidate>)
    ensures EditOutcome(Response(Some([c] + rest1))) == EditOutcome(Response(Some([c] + rest2)))
  {
  }

  /** Stripping the prefix off a returned image gives back the payload the
      model sent, when that payload has no comma (as base64 never has). */
  lemma ExtractedImageRoundTrip(response: Response)
    requires EditOutcome(response).Success?
    ensures var parts := PartsToScan(response).value;
      var k := FirstImageIndex(parts).value;
      ',' !in ImageData(parts[k]) ==> CleanBase64(EditOutcome(response).value) == Some(ImageData(parts[k]))
  {
    var parts := PartsToScan(response).value;
    var k := FirstImageIndex(parts).value;
    var d := ImageData(parts[k]);
    if ',' !in d {
      var header := "data:image/png;base64";
      assert PngPrefix == header + [','];
      CleanBase64OfDataUrl(header, d, "");
      assert header + [','] + d + "" == PngPrefix + d;
    }
  }
}
