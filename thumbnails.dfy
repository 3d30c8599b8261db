/**
 * The thumbnail handlers: the fetch handler's lookups, and the upload handler, which runs the
 * same gates as the video upload with a 10 MiB ceiling and no type check, then stores the image
 * in the record as a `data:` URL (RFC 2397) carrying the bytes in Base64.
 */
module Thumbnails {
  import opened Basics
  import opened Api
  import Base64
  import Text

  /** An entry of the in-memory `videoThumbnails` map, which nothing in these handlers writes. */
  datatype Thumbnail = Thumbnail(data: seq<byte>, mediaType: string)

  /** What the fetch handler's `Response` carries: status, body and headers, in order. */
  datatype Response = Response(status: nat, body: seq<byte>, headers: seq<(string, string)>)

  /** `handlerGetThumbnail`: the ID, the record, then the stored thumbnail, which it serves uncached. */
  function GetThumbnail(videoId: Option<string>, db: map<VideoId, Video>, videoThumbnails: map<VideoId, Thumbnail>): (r: Result<Response>)
    ensures !HasId(videoId) ==> r == Err(BadRequest(InvalidIdMessage))
    ensures HasId(videoId) && videoId.value !in db ==> r == Err(NotFound("Couldn't find video"))
    ensures HasId(videoId) && videoId.value in db && videoId.value !in videoThumbnails ==>
              r == Err(NotFound("Thumbnail not found"))
    ensures r.Ok? <==> HasId(videoId) && videoId.value in db && videoId.value in videoThumbnails
    ensures r.Ok? ==>
              var thumbnail := videoThumbnails[videoId.value];
              && r.value.status == 200
              && r.value.body == thumbnail.data
              && FirstValue(r.value.headers, "Content-Type") == Some(thumbnail.mediaType)
              && FirstValue(r.value.headers, "Cache-Control") == Some("no-store")
  {
    if !HasId(videoId) then Err(BadRequest(InvalidIdMessage))
    else if videoId.value !in db then Err(NotFound("Couldn't find video"))
    else if videoId.value !in videoThumbnails then Err(NotFound("Thumbnail not found"))
    else
      var thumbnail := videoThumbnails[videoId.value];
      Ok(Response(200, thumbnail.data, [("Content-Type", thumbnail.mediaType), ("Cache-Control", "no-store")]))
  }

  /** `10 << 20` bytes, 10 MiB. */
  const MaxUploadSize: nat := 10485760
  const Field := "thumbnail"
  const MissingMessage := "Thumbnail file missing"

  /** The ceiling written in MB, `(MAX_UPLOAD_SIZE / 1024) / 1024`. */
  function TooLargeMessage(): string {
    "Thumbnail exceeds the Max upload size of " + Text.Decimal(MaxUploadSize / 1024 / 1024) + " MB."
  }

  lemma TooLargeMessageText()
    ensures MaxUploadSize == 10 * 1024 * 1024
    ensures TooLargeMessage() == "Thumbnail exceeds the Max upload size of 10 MB."
  {
    assert Text.Decimal(10) == Text.Decimal(1) + ['0'];
  }

  /** All the gates of the upload handler, in its order; any declared media type is accepted. */
  function CheckUpload(videoId: Option<string>, credential: Credential, db: map<VideoId, Video>, form: FormData): (r: Result<Upload>)
    ensures var shared := CheckOwnedUpload(videoId, credential, db, form, Field, MissingMessage);
      && (shared.Err? ==> r == shared)
      && (shared.Ok? && shared.value.file.Size() > MaxUploadSize ==> r == Err(BadRequest(TooLargeMessage())))
      && (r.Ok? <==> shared.Ok? && shared.value.file.Size() <= MaxUploadSize)
      && (r.Ok? ==> r == shared)
  {
    match CheckOwnedUpload(videoId, credential, db, form, Field, MissingMessage)
    case Err(e) => Err(e)
    case Ok(upload) =>
      if upload.file.Size() > MaxUploadSize then Err(BadRequest(TooLargeMessage())) else Ok(upload)
  }

  /** `data:${mediaType};base64,${buffer.toString("base64")}`, the media type verbatim. */
  function DataURL(mediaType: string, data: seq<byte>): (url: string)
    ensures |url| >= 13 + |mediaType|
    ensures url[..5] == "data:" && url[5..5 + |mediaType|] == mediaType
    ensures url[5 + |mediaType|..13 + |mediaType|] == ";base64,"
  {
    "data:" + mediaType + ";base64," + Base64.Encode(data)
  }

  /**
   * Reads a URL of the form DataURL writes. It splits at the last comma: the Base64 alphabet
   * has none, so the media type comes back verbatim even when it holds commas itself.
   */
  function ParseDataURL(url: string): Option<(string, seq<byte>)> {
    if |url| < 5 || url[..5] != "data:" then None
    else
      var comma := Text.LastIndexOf(url, ',');
      if comma.None? || comma.value < 12 || url[comma.value - 7..comma.value] != ";base64" then None
      else
        var data := Base64.Decode(url[comma.value + 1..]);
        if data.None? then None else Some((url[5..comma.value - 7], data.value))
  }

  /** ParseDataURL at a URL whose last comma sits behind a `;base64` marker. */
  lemma ParseDataURLAt(url: string, comma: nat)
    requires |url| >= 5 && url[..5] == "data:"
    requires Text.LastIndexOf(url, ',') == Some(comma) && comma >= 12 && url[comma - 7..comma] == ";base64"
    requires Base64.Decode(url[comma + 1..]).Some?
    ensures ParseDataURL(url) == Some((url[5..comma - 7], Base64.Decode(url[comma + 1..]).value))
  {
    var found := Text.LastIndexOf(url, ',');
    assert !(|url| < 5 || url[..5] != "data:");
    assert !(found.None? || found.value < 12 || url[found.value - 7..found.value] != ";base64");
  }

  /** A stored thumbnail URL gives back the declared media type and the uploaded bytes exactly. */
  lemma ParseDataURLOfDataURL(mediaType: string, data: seq<byte>)
    ensures ParseDataURL(DataURL(mediaType, data)) == Some((mediaType, data))
  {
    var payload := Base64.Encode(data);
    var header := "data:" + mediaType + ";base64,";
    var url := header + payload;
    var comma := |header| - 1;
    assert url == DataURL(mediaType, data);
    assert Text.LastIndexOf(url, ',') == Some(comma) by {
      Base64.EncodedHasNoComma(data);
      assert ',' !in payload;
      Text.LastIndexOfAppend(header, payload, ',');
    }
    var prefix := "data:" + mediaType;
    assert header == prefix + ";base64,";
    assert url[..5] == "data:" by {
      assert url[..5] == header[..5] == prefix[..5];
    }
    assert url[comma - 7..comma] == ";base64" by {
      assert comma - 7 == |prefix|;
      assert url[comma - 7..comma] == header[|prefix|..|prefix| + 7];
    }
    assert url[5..comma - 7] == mediaType by {
      assert url[5..comma - 7] == header[5..|prefix|] == prefix[5..];
    }
    assert Base64.Decode(url[comma + 1..]) == Some(data) by {
      assert url[comma + 1..] == payload;
      Base64.DecodeEncode(data);
    }
    ParseDataURLAt(url, comma);
  }

  lemma Pieces(url: string, comma: nat)
    requires 12 <= comma < |url|
    ensures url == url[..5] + url[5..comma - 7] + (url[comma - 7..comma] + [url[comma]]) + url[comma + 1..]
  {
  }

  /** Every URL ParseDataURL accepts is the DataURL of what it returns, so the two are inverse. */
  lemma DataURLOfParseDataURL(url: string)
    requires ParseDataURL(url).Some?
    ensures DataURL(ParseDataURL(url).value.0, ParseDataURL(url).value.1) == url
  {
    var comma := Text.LastIndexOf(url, ',').value;
    var payload := url[comma + 1..];
    var mediaType, data := url[5..comma - 7], Base64.Decode(payload).value;
    assert ParseDataURL(url).value == (mediaType, data);
    Base64.EncodeDecode(payload);
    assert url[comma - 7..comma] + [url[comma]] == ";base64,";
    Pieces(url, comma);
  }

  /** The URL is the fixed header around the media type, then 4 * ceil(n / 3) Base64 characters. */
  lemma DataURLLength(mediaType: string, data: seq<byte>)
    ensures |DataURL(mediaType, data)| == 13 + |mediaType| + 4 * ((|data| + 2) / 3)
  {
  }

  /**
   * `handlerUploadThumbnail`: after the gates, points the record's thumbnail at the data URL of
   * the upload, saves it and answers with the updated record. Disk and bucket are not touched.
   */
  method UploadThumbnail(cfg: Config, videoId: Option<string>, credential: Credential, form: FormData)
    returns (r: Result<Video>)
    requires cfg.Valid()
    modifies cfg
    ensures cfg.Valid()
    ensures cfg.fs == old(cfg.fs) && cfg.s3 == old(cfg.s3)
    ensures var gate := CheckUpload(videoId, credential, old(cfg.db), form);
      gate.Err? ==> r == Err(gate.error) && cfg.db == old(cfg.db)
    ensures var gate := CheckUpload(videoId, credential, old(cfg.db), form);
      gate.Ok? ==>
        var video := gate.value.video.(thumbnailURL := Some(DataURL(gate.value.file.mediaType, gate.value.file.data)));
        r == Ok(video) && cfg.db == old(cfg.db)[gate.value.id := video]
  {
    var gate := CheckUpload(videoId, credential, cfg.db, form);
    if gate.Err? {
      return Err(gate.error);
    }
    var upload := gate.value;
    var dataURL := DataURL(upload.file.mediaType, upload.file.data);
    // video.thumbnailURL = dataURL; updateVideo(cfg.db, video)
    var video := upload.video.(thumbnailURL := Some(dataURL));
    OtherFieldsKeepAddressesStored(cfg.db, cfg.s3, cfg.s3Bucket, cfg.s3Region, upload.id, video);
    cfg.db := cfg.db[upload.id := video];
    r := Ok(video);
  }
}
