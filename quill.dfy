/** The decision logic of the rich-text editor controller: the colour
    palette and its custom-colour sentinel, the toolbar built from a list of
    tool-group names, the image-upload gate, the handling of the attachment
    server's reply and the classification of its error replies. The presence
    channel, cursors and timers are not part of this module. */
module Quill {
  import opened Wrappers
  import opened Application

  // ---------------------------------------------------------------------
  // Colours
  // ---------------------------------------------------------------------

  /** The palette entry that asks the user for a colour instead of being one. */
  const CustomColorSentinel := "custom-color"

  /** The text of the colour prompt. */
  const ColorPrompt := "Enter Color Code (#c0ffee or rgba(255, 0, 0, 0.5))"

  /** A colour written '#' followed by six lower-case hexadecimal digits. */
  predicate IsHexColor(c: string) {
    |c| == 7 && c[0] == '#' && forall i :: 1 <= i < 7 ==> c[i] in "0123456789abcdef"
  }

  /** colors(): the palette offered by the colour and background pickers. */
  function Colors(): (palette: seq<string>)
    ensures |palette| == 36
    ensures palette[35] == CustomColorSentinel
    ensures forall i :: 0 <= i < 35 ==> IsHexColor(palette[i])
  {
    [ "#000000", "#e60000", "#ff9900", "#ffff00", "#008a00", "#0066cc",
      "#9933ff", "#ffffff", "#facccc", "#ffebcc", "#ffffcc", "#cce8cc",
      "#cce0f5", "#ebd6ff", "#bbbbbb", "#f06666", "#ffc266", "#ffff66",
      "#66b966", "#66a3e0", "#c285ff", "#888888", "#a10000", "#b26b00",
      "#b2b200", "#006100", "#0047b2", "#6b24b2", "#444444", "#5c0000",
      "#663d00", "#666600", "#003700", "#002966", "#3d1466", "custom-color" ]
  }

  /** The sentinel is the last palette entry and occurs nowhere else. */
  lemma SentinelOnlyLast(i: nat)
    requires i < |Colors()|
    ensures Colors()[i] == CustomColorSentinel <==> i == 35
  {
    if i < 35 {
      assert IsHexColor(Colors()[i]);
      assert Colors()[i][0] == '#' != CustomColorSentinel[0];
    }
  }

  /** No colour is offered twice. */
  lemma ColorsDistinct()
    ensures forall i, j :: 0 <= i < j < |Colors()| ==> Colors()[i] != Colors()[j]
  {
  }

  /** customColor(value): the sentinel asks the user, through `prompt`
      (window.prompt, which yields None when the dialog is dismissed); any
      other value is passed through. */
  function CustomColor(value: string, prompt: string -> Option<string>): (color: Option<string>)
    ensures value == CustomColorSentinel ==> color == prompt(ColorPrompt)
  {
    if value == CustomColorSentinel then prompt(ColorPrompt) else Some(value)
  }

  /** A value other than the sentinel comes back unchanged, whatever the
      prompt would answer: the prompt is not consulted. */
  lemma CustomColorPassesThrough(value: string, p: string -> Option<string>, q: string -> Option<string>)
    requires value != CustomColorSentinel
    ensures CustomColor(value, p) == CustomColor(value, q) == Some(value)
  {
  }

  /** Picking palette entry i applies that colour, except for the last entry,
      which applies what the prompt answers. */
  lemma PaletteChoice(i: nat, prompt: string -> Option<string>)
    requires i < |Colors()|
    ensures i < 35 ==> CustomColor(Colors()[i], prompt) == Some(Colors()[i])
    ensures i == 35 ==> CustomColor(Colors()[i], prompt) == prompt(ColorPrompt)
  {
    SentinelOnlyLast(i);
  }

  // ---------------------------------------------------------------------
  // Toolbar
  // ---------------------------------------------------------------------

  /** The value of a picker control: a single option or a list of choices. */
  datatype FormatValue = Choice(option: string) | Choices(options: seq<string>)

  /** A toolbar control: a plain button named by its format, or a picker
      written `{format: value}`. */
  datatype Control = Button(name: string) | Picker(format: string, value: FormatValue)

  /** The names of the seven tool groups. */
  const GroupNames: set<string> := {"text", "quote", "color", "header", "list", "format", "media"}

  /** The fixed table of tool groups of containerToolbar. */
  const ControlsGroups: map<string, seq<Control>> := map[
    "text"   := [Button("bold"), Button("italic"), Button("underline"), Button("strike"),
                 Button("link"), Button("clean")],
    "quote"  := [Button("blockquote"), Button("code-block")],
    "color"  := [Picker("color", Choices(Colors())), Picker("background", Choices(Colors()))],
    "header" := [Picker("header", Choice("1")), Picker("header", Choice("2"))],
    "list"   := [Picker("list", Choice("ordered")), Picker("list", Choice("bullet"))],
    "format" := [Picker("indent", Choice("-1")), Picker("indent", Choice("+1")),
                 Picker("align", Choices([]))],
    "media"  := [Button("image"), Button("video")]
  ]

  /** `controlsGroup[name]`: None stands for `undefined`. */
  function ControlsGroup(name: string): (controls: Option<seq<Control>>)
    ensures controls.Some? <==> name in GroupNames
    ensures controls.Some? ==> controls.value != []
  {
    if name in ControlsGroups then Some(ControlsGroups[name]) else None
  }

  /** containerToolbar(): the requested tool groups, looked up one by one, in
      the order requested. */
  function ContainerToolbar(tools: seq<string>): (toolbar: seq<Option<seq<Control>>>)
    ensures |toolbar| == |tools|
    ensures forall i :: 0 <= i < |tools| ==> toolbar[i] == ControlsGroup(tools[i])
  {
    if tools == [] then [] else [ControlsGroup(tools[0])] + ContainerToolbar(tools[1..])
  }

  /** An entry of the toolbar is undefined exactly when its name is not one
      of the seven groups; an unknown name is no error. */
  lemma ToolbarUnknownNames(tools: seq<string>, i: nat)
    requires i < |tools|
    ensures ContainerToolbar(tools)[i].None? <==> tools[i] !in GroupNames
  {
  }

  /** The toolbar for a concatenated request is the concatenation of the two
      toolbars. */
  lemma ToolbarConcat(a: seq<string>, b: seq<string>)
    ensures ContainerToolbar(a + b) == ContainerToolbar(a) + ContainerToolbar(b)
  {
    var l, r := ContainerToolbar(a + b), ContainerToolbar(a) + ContainerToolbar(b);
    assert |l| == |r|;
    forall i | 0 <= i < |l| ensures l[i] == r[i] {
      if i < |a| { assert (a + b)[i] == a[i]; } else { assert (a + b)[i] == b[i - |a|]; }
    }
  }

  /** Both colour pickers offer the palette. */
  lemma ColorGroupOffersPalette()
    ensures ControlsGroup("color").Some?
    ensures forall c :: c in ControlsGroup("color").value ==> c.Picker? && c.value == Choices(Colors())
  {
  }

  // ---------------------------------------------------------------------
  // Image upload
  // ---------------------------------------------------------------------

  /** The MIME type prefix the image gate requires. */
  const ImagePrefix := "image/"

  /** `/^image\//.test(type)`. */
  predicate IsImageType(mime: string)
    ensures IsImageType(mime) ==> |mime| >= 6 && mime == ImagePrefix + mime[6..]
  {
    |ImagePrefix| <= |mime| && mime[..|ImagePrefix|] == ImagePrefix
  }

  /** The gate accepts exactly the types that are "image/" followed by
      anything. */
  lemma ImageTypeIsPrefix(mime: string)
    ensures IsImageType(mime) <==> exists rest :: mime == ImagePrefix + rest
  {
    if IsImageType(mime) {
      assert mime == ImagePrefix + mime[|ImagePrefix|..];
    } else {
      forall rest ensures mime != ImagePrefix + rest {
        assert (ImagePrefix + rest)[..|ImagePrefix|] == ImagePrefix;
      }
    }
  }

  /** The test is case-sensitive and anchored at the start. */
  lemma ImageTypeExamples()
    ensures IsImageType("image/png") && IsImageType("image/")
    ensures !IsImageType("IMAGE/PNG") && !IsImageType("image") && !IsImageType("text/image/png")
  {
    assert "IMAGE/PNG"[0] != ImagePrefix[0];
    assert "text/image/png"[0] != ImagePrefix[0];
  }

  /** The file picked in the browser's dialog. */
  datatype File = File(name: string, mimeType: string)

  /** The upload endpoint. */
  const AttachmentsEndpoint := "https://autumn.fluffici.eu/attachments"

  /** A multipart POST to the attachment server. */
  datatype Request = Request(url: string, httpMethod: string, field: string, file: File)

  /** The request saveToServer sends: the file as form field "file". */
  function UploadRequest(file: File): (req: Request)
    ensures req.url == AttachmentsEndpoint && req.httpMethod == "post"
    ensures req.field == "file" && req.file == file
  {
    Request(AttachmentsEndpoint, "post", "file", file)
  }

  /** What the file input's change handler does with the picked file. */
  datatype ImagePick = SendToServer(request: Request) | Refuse(alert: Notice)

  /** The change handler of selectLocalImage. */
  function SelectLocalImage(file: File): (pick: ImagePick)
    ensures pick.SendToServer? <==> IsImageType(file.mimeType)
    ensures pick.SendToServer? ==> pick.request == UploadRequest(file)
    ensures pick.Refuse? ==>
      && pick.alert.AlertNotice?
      && pick.alert == Alert("Validation error", "You could only upload images.", Some("danger"))
      && pick.alert.Severity() == "danger"
  {
    if IsImageType(file.mimeType) then SendToServer(UploadRequest(file))
    else Refuse(Alert("Validation error", "You could only upload images.", Some("danger")))
  }

  // ---------------------------------------------------------------------
  // The server's reply
  // ---------------------------------------------------------------------

  /** The fields the controller reads from the parsed JSON body: `id` on
      success, `type` and `max_size` on failure. None stands for a field that
      is absent (for `type`: or not a string, which no `===` test matches). */
  datatype ReplyBody = ReplyBody(id: Option<string>, errorType: Option<string>, maxSize: Option<int>)

  /** `ok` is the HTTP status check. `body` is None when no handler of the
      reply runs to its end: the body is not JSON, so that `res.json()`
      rejects; the body is JSON `null`, so that reading `result.id` or
      `result.type` throws; or the `fetch` itself rejects (a network
      failure), so that no `.then` callback runs. In each case nothing is
      shown. */
  datatype Reply = Reply(ok: bool, body: Option<ReplyBody>)

  /** The range `getSelection()` returns. */
  datatype Range = Range(index: nat, length: nat)

  /** What handling the reply does to the page. */
  datatype Effect =
    | InsertEmbed(index: nat, kind: string, url: string)
    | ShowNotice(notice: Notice)
    | NoEffect

  const AttachmentBase := "https://autumn.fluffici.eu/attachments/"

  /** `${result.id}`: a missing id interpolates as "undefined". */
  function IdText(id: Option<string>): (text: string)
    ensures id.Some? ==> text == id.value
    ensures id.None? ==> text == "undefined"
  {
    match id
    case Some(s) => s
    case None => "undefined"
  }

  /** The URL of a stored attachment. */
  function AttachmentUrl(id: string): (url: string)
    ensures |AttachmentBase| <= |url| && url[..|AttachmentBase|] == AttachmentBase
  {
    AttachmentBase + id
  }

  /** The attachment id a URL names, when it names one. */
  function AttachmentIdOf(url: string): Option<string> {
    if |AttachmentBase| <= |url| && url[..|AttachmentBase|] == AttachmentBase
    then Some(url[|AttachmentBase|..]) else None
  }

  /** The id is recovered from the URL, so different ids give different
      URLs. */
  lemma AttachmentUrlRoundTrip(id: string)
    ensures AttachmentIdOf(AttachmentUrl(id)) == Some(id)
  {
    assert AttachmentUrl(id)[|AttachmentBase|..] == id;
  }

  /** The attachment URL is the upload endpoint, a slash and the id. */
  lemma AttachmentUrlUnderEndpoint(id: string)
    ensures AttachmentUrl(id) == AttachmentsEndpoint + "/" + id
  {
  }

  /** insertToEditor(url): an image embed at the start of the current
      selection. With no selection `getSelection()` yields null, reading its
      index throws inside the promise callback and nothing is inserted. */
  function InsertToEditor(selection: Option<Range>, url: string): (e: Effect)
    ensures selection.Some? ==> e == InsertEmbed(selection.value.index, "image", url)
    ensures selection.None? ==> e == NoEffect
  {
    match selection
    case Some(r) => InsertEmbed(r.index, "image", url)
    case None => NoEffect
  }

  // ---------------------------------------------------------------------
  // displayError
  // ---------------------------------------------------------------------

  /** The eight error types the attachment server reports. */
  datatype UploadError =
    | Malware | S3Error | DatabaseError | FileTypeNotAllowed
    | UnknownTag | MissingData | FailedToReceive | FileTooLarge

  /** The eight `type` strings displayError recognises. */
  const KnownErrorTypes: set<string> :=
    {"Malware", "S3Error", "DatabaseError", "FileTypeNotAllowed",
     "UnknownTag", "MissingData", "FailedToReceive", "FileTooLarge"}

  /** The `type` string of each error. */
  function ErrorTypeName(e: UploadError): (name: string)
    ensures name in KnownErrorTypes
  {
    match e
    case Malware => "Malware"
    case S3Error => "S3Error"
    case DatabaseError => "DatabaseError"
    case FileTypeNotAllowed => "FileTypeNotAllowed"
    case UnknownTag => "UnknownTag"
    case MissingData => "MissingData"
    case FailedToReceive => "FailedToReceive"
    case FileTooLarge => "FileTooLarge"
  }

  /** The if/else chain of displayError, as a classification of `type`. */
  function ClassifyError(errorType: Option<string>): (e: Option<UploadError>)
    ensures e.Some? ==> errorType == Some(ErrorTypeName(e.value))
    ensures e.None? ==> forall k :: errorType != Some(ErrorTypeName(k))
  {
    if errorType == Some("Malware") then Some(Malware)
    else if errorType == Some("S3Error") then Some(S3Error)
    else if errorType == Some("DatabaseError") then Some(DatabaseError)
    else if errorType == Some("FileTypeNotAllowed") then Some(FileTypeNotAllowed)
    else if errorType == Some("UnknownTag") then Some(UnknownTag)
    else if errorType == Some("MissingData") then Some(MissingData)
    else if errorType == Some("FailedToReceive") then Some(FailedToReceive)
    else if errorType == Some("FileTooLarge") then Some(FileTooLarge)
    else None
  }

  /** Every error is recognised from its own name. */
  lemma ClassifyRoundTrip(e: UploadError)
    ensures ClassifyError(Some(ErrorTypeName(e))) == Some(e)
  {
  }

  /** The message of each error; `figure` is the rendered maximum size in
      megabytes that the file-too-large message interpolates. Long messages
      are written in pieces: the verifier looks into the characters of short
      string literals only. */
  function ErrorMessage(e: UploadError, figure: string): (m: string)
    ensures e != FileTooLarge ==> |m| == FixedMessageLength(e)
    ensures e == FileTooLarge ==> |m| == 53 + |figure| && m[0] == 'T' && m[48..48 + |figure|] == figure
  {
    match e
    case Malware => "A malware was detected, we cannot send the file."
    case S3Error => "The ObjectStorage backend is offline"
    case DatabaseError => "The database has struggles to answer."
    case FileTypeNotAllowed => "Incorrect file type for this tag."
    case UnknownTag => "This tag does not exists."
    case MissingData => "Missing data in the request."
    case FailedToReceive => "The upload was aborted."
    case FileTooLarge =>
      var head, tail := "This file is too large ", "( Maximum size allowed : ";
      var m := head + tail + figure + " Mb )";
      assert m == head + (tail + figure + " Mb )") && m[48..48 + |figure|] == figure;
      m
  }

  /** The message of an unrecognised error type. */
  const FallbackMessage := "Autumn have not responded, " + "is the fox gone OwO? *screech*"

  /** The length of each message other than the file-too-large one. */
  function FixedMessageLength(e: UploadError): nat {
    match e
    case Malware => 48
    case S3Error => 36
    case DatabaseError => 37
    case FileTypeNotAllowed => 33
    case UnknownTag => 25
    case MissingData => 28
    case FailedToReceive => 23
    case FileTooLarge => 0
  }

  /** Each error has its own message, and none of them is the fallback,
      whatever the figure. */
  lemma ErrorMessagesDistinct(e1: UploadError, e2: UploadError, figure: string)
    ensures e1 != e2 ==> ErrorMessage(e1, figure) != ErrorMessage(e2, figure)
    ensures ErrorMessage(e1, figure) != FallbackMessage
  {
    var n1, n2 := |ErrorMessage(e1, figure)|, |ErrorMessage(e2, figure)|;
    assert n1 == if e1 == FileTooLarge then 53 + |figure| else FixedMessageLength(e1);
    assert n2 == if e2 == FileTooLarge then 53 + |figure| else FixedMessageLength(e2);
    assert |FallbackMessage| == 57 && FallbackMessage[0] == 'A';
    if e1 != e2 {
      assert n1 != n2;
    }
  }

  /** The notice displayError shows for an error `type`, given the figure
      its file-too-large message interpolates: a known type is toasted with
      severity "danger", anything else with the default severity. */
  function ErrorNotice(errorType: Option<string>, figure: string): (n: Notice)
    ensures n.ToastNotice?
    ensures ClassifyError(errorType).Some? ==>
      n.message == ErrorMessage(ClassifyError(errorType).value, figure) && n.Severity() == "danger"
    ensures ClassifyError(errorType).None? ==>
      n.message == FallbackMessage && n.Severity() == DefaultSeverity
  {
    match ClassifyError(errorType)
    case Some(e) => Toast(ErrorMessage(e, figure), Some("danger"))
    case None => Toast(FallbackMessage, None)
  }

  /** displayError as written: the size is read from `error`, the promise
      of the body, which has no `max_size`, so the division yields NaN. */
  function DisplayErrorAsWritten(body: ReplyBody): (n: Notice)
    ensures ClassifyError(body.errorType) == Some(FileTooLarge) ==>
      n.message == ErrorMessage(FileTooLarge, "NaN")
  {
    ErrorNotice(body.errorType, "NaN")
  }

  /** The figure `max_size / 1000 / 1000` renders as, read from the parsed
      body. `megabytes` is the JavaScript runtime's floating-point division
      and number formatting, which this model does not reproduce; an absent
      size gives NaN. */
  function MegabyteFigure(maxSize: Option<int>, megabytes: int -> string): (figure: string)
    ensures maxSize.Some? ==> figure == megabytes(maxSize.value)
    ensures maxSize.None? ==> figure == "NaN"
  {
    match maxSize
    case Some(n) => megabytes(n)
    case None => "NaN"
  }

  /** displayError with the size read from the parsed body. */
  function DisplayError(body: ReplyBody, megabytes: int -> string): (n: Notice)
    ensures body.maxSize.Some? && ClassifyError(body.errorType) == Some(FileTooLarge) ==>
      n.message == ErrorMessage(FileTooLarge, megabytes(body.maxSize.value))
  {
    ErrorNotice(body.errorType, MegabyteFigure(body.maxSize, megabytes))
  }

  /** The reply {type: "FileTooLarge", max_size: 5000000}: as written the
      message says "NaN Mb"; read from the body it says "5 Mb". */
  lemma FileTooLargeFigureLost(megabytes: int -> string)
    requires megabytes(5000000) == "5"
    ensures var body := ReplyBody(None, Some("FileTooLarge"), Some(5000000));
      && DisplayErrorAsWritten(body).message == ErrorMessage(FileTooLarge, "NaN")
      && DisplayError(body, megabytes).message == ErrorMessage(FileTooLarge, "5")
      && DisplayErrorAsWritten(body) != DisplayError(body, megabytes)
  {
    var body := ReplyBody(None, Some("FileTooLarge"), Some(5000000));
    var asWritten := DisplayErrorAsWritten(body).message;
    var intended := DisplayError(body, megabytes).message;
    assert asWritten[48] == 'N' && intended[48] == '5';
  }

  /** The two readings differ only in the file-too-large message. */
  lemma DisplayErrorAgreesElsewhere(body: ReplyBody, megabytes: int -> string)
    requires ClassifyError(body.errorType) != Some(FileTooLarge)
    ensures DisplayErrorAsWritten(body) == DisplayError(body, megabytes)
  {
  }

  // ---------------------------------------------------------------------
  // saveToServer: the reply
  // ---------------------------------------------------------------------

  /** The continuation of saveToServer's fetch: an ok reply embeds the
      attachment at the selection, any other reply shows the error notice; a
      body that is not JSON rejects and nothing happens. */
  function HandleReply(reply: Reply, selection: Option<Range>, megabytes: int -> string): (e: Effect)
    ensures reply.body.None? ==> e == NoEffect
    ensures reply.ok && reply.body.Some? ==>
      e == InsertToEditor(selection, AttachmentUrl(IdText(reply.body.value.id)))
    ensures !reply.ok && reply.body.Some? ==>
      e.ShowNotice? && e.notice == DisplayError(reply.body.value, megabytes)
  {
    match reply.body
    case None => NoEffect
    case Some(body) =>
      if reply.ok then InsertToEditor(selection, AttachmentUrl(IdText(body.id)))
      else ShowNotice(DisplayError(body, megabytes))
  }

  /** HandleReply reads the size from the reply's body; the code reads it
      from the promise. The two agree on every reply except a failed
      file-too-large one, where the code shows NaN. */
  lemma HandleReplyAgreesWithCode(reply: Reply, selection: Option<Range>, megabytes: int -> string)
    requires reply.body.Some? && !reply.ok
    ensures ClassifyError(reply.body.value.errorType) != Some(FileTooLarge) ==>
      HandleReply(reply, selection, megabytes) == ShowNotice(DisplayErrorAsWritten(reply.body.value))
    ensures ClassifyError(reply.body.value.errorType) == Some(FileTooLarge) ==>
      HandleReply(reply, selection, megabytes).notice.message
        == ErrorMessage(FileTooLarge, MegabyteFigure(reply.body.value.maxSize, megabytes))
  {
    if ClassifyError(reply.body.value.errorType) != Some(FileTooLarge) {
      DisplayErrorAgreesElsewhere(reply.body.value, megabytes);
    }
  }

  /** The whole image flow: the picked file, the server's reply if a request
      is sent, and the selection when the reply arrives. */
  function UploadImage(file: File, reply: Reply, selection: Option<Range>, megabytes: int -> string): (e: Effect)
    ensures !IsImageType(file.mimeType) ==>
      e == ShowNotice(Alert("Validation error", "You could only upload images.", Some("danger")))
    ensures IsImageType(file.mimeType) ==> e == HandleReply(reply, selection, megabytes)
  {
    match SelectLocalImage(file)
    case Refuse(alert) => ShowNotice(alert)
    case SendToServer(_) => HandleReply(reply, selection, megabytes)
  }

  /** A file that is not an image is refused whatever the server would have
      replied: no request is made. */
  lemma NonImageNeverUploads(file: File, r1: Reply, r2: Reply, s1: Option<Range>, s2: Option<Range>,
                             m1: int -> string, m2: int -> string)
    requires !IsImageType(file.mimeType)
    ensures SelectLocalImage(file).Refuse?
    ensures UploadImage(file, r1, s1, m1) == UploadImage(file, r2, s2, m2)
    ensures UploadImage(file, r1, s1, m1).notice.Severity() == "danger"
  {
  }

  /** A PNG upload answered with id "abc123" embeds
      https://autumn.fluffici.eu/attachments/abc123 at the selection. */
  lemma PngUploadScenario(index: nat, length: nat, megabytes: int -> string)
    ensures UploadImage(File("photo.png", "image/png"), Reply(true, Some(ReplyBody(Some("abc123"), None, None))),
                        Some(Range(index, length)), megabytes)
         == InsertEmbed(index, "image", "https://autumn.fluffici.eu/attachments/abc123")
  {
    assert IsImageType("image/png");
  }
}
