/**
 * The video upload handler: the gates, the random object key and its public address, the
 * staged temporary copy that never outlives the request, and the record update that happens
 * only after the object store accepted the bytes.
 */
module Videos {
  import opened Basics
  import opened Api
  import Hex
  import Text

  /** `1 << 30` bytes, 1 GiB. */
  const MaxUploadSize: nat := 1073741824
  const Field := "video"
  const MissingMessage := "Video file missing"
  const AcceptedType := "video/mp4"
  /** The message as the handler writes it, closing parenthesis missing. */
  const InvalidTypeMessage := "Invalid video type (must be mp4"

  /** The ceiling written in MB, `(MAX_UPLOAD_SIZE / 1024) / 1024`. */
  function TooLargeMessage(): string {
    "Video exceeds the Max upload size of " + Text.Decimal(MaxUploadSize / 1024 / 1024) + " MB."
  }

  lemma TooLargeMessageText()
    ensures MaxUploadSize == 1024 * 1024 * 1024
    ensures TooLargeMessage() == "Video exceeds the Max upload size of 1024 MB."
  {
    assert Text.Decimal(10) == "10" by {
      assert Text.Decimal(10) == Text.Decimal(1) + ['0'];
    }
    assert Text.Decimal(102) == "102" by {
      assert Text.Decimal(102) == Text.Decimal(10) + ['2'];
    }
    assert Text.Decimal(1024) == "1024" by {
      assert Text.Decimal(1024) == Text.Decimal(102) + ['4'];
    }
    assert MaxUploadSize / 1024 / 1024 == 1024;
  }

  /** All the gates of the handler, in the order it runs them. */
  function CheckUpload(videoId: Option<string>, credential: Credential, db: map<VideoId, Video>, form: FormData): (r: Result<Upload>)
    ensures var shared := CheckOwnedUpload(videoId, credential, db, form, Field, MissingMessage);
      && (shared.Err? ==> r == shared)
      && (shared.Ok? && shared.value.file.Size() > MaxUploadSize ==> r == Err(BadRequest(TooLargeMessage())))
      && (shared.Ok? && shared.value.file.Size() <= MaxUploadSize && shared.value.file.mediaType != AcceptedType ==>
            r == Err(BadRequest(InvalidTypeMessage)))
      && (r.Ok? <==> shared.Ok? && shared.value.file.Size() <= MaxUploadSize && shared.value.file.mediaType == AcceptedType)
      && (r.Ok? ==> r == shared)
  {
    match CheckOwnedUpload(videoId, credential, db, form, Field, MissingMessage)
    case Err(e) => Err(e)
    case Ok(upload) =>
      if upload.file.Size() > MaxUploadSize then Err(BadRequest(TooLargeMessage()))
      else if upload.file.mediaType != AcceptedType then Err(BadRequest(InvalidTypeMessage))
      else Ok(upload)
  }

  /** `mediaType.split("/")[1]`, which a template literal renders as "undefined" when there is no `/`. */
  function Extension(mediaType: string): (extension: string)
    ensures '/' !in extension
    ensures '/' !in mediaType ==> extension == "undefined"
  {
    var parts := Text.Split(mediaType, '/');
    if |parts| > 1 then
      Text.JoinHasSep(parts, '/');
      parts[1]
    else "undefined"
  }

  /** The one accepted type splits into "video" and "mp4", so every stored video gets extension "mp4". */
  lemma AcceptedTypeParts()
    ensures Text.Split(AcceptedType, '/') == ["video", "mp4"]
    ensures Extension(AcceptedType) == "mp4"
  {
    var parts := ["video", "mp4"];
    assert Text.Join(parts, '/') == "video" + "/" + Text.Join(parts[1..], '/');
    assert Text.Join(parts[1..], '/') == "mp4";
    assert Text.Join(parts, '/') == AcceptedType;
    Text.SplitJoin(parts, '/');
  }

  /** The object key: the random bytes in lower-case hex, a dot, the extension. */
  function ObjectKey(random: seq<byte>, extension: string): (key: string)
    ensures |key| == 2 * |random| + 1 + |extension|
    ensures key[2 * |random|] == '.' && key[2 * |random| + 1..] == extension
  {
    Hex.Encode(random) + "." + extension
  }

  /** `path.join("/tmp", key)`; the key holds no `/`, so joining is concatenation. */
  function TempPath(key: string): (path: string)
    ensures |path| == 5 + |key| && path[..5] == "/tmp/" && path[5..] == key
  {
    "/tmp/" + key
  }

  /** A key is 64 lower-case hex digits, then ".mp4". */
  lemma ObjectKeyShape(random: seq<byte>)
    requires |random| == 32
    ensures var key := ObjectKey(random, "mp4");
      && |key| == 68
      && (forall i | 0 <= i < 64 :: Hex.IsDigit(key[i]))
      && key[64..] == ".mp4"
  {
  }

  /** Distinct random values give distinct keys, and so distinct temporary paths and addresses. */
  lemma {:induction false} ObjectKeysDistinct(r1: seq<byte>, r2: seq<byte>, extension: string)
    requires r1 != r2
    ensures ObjectKey(r1, extension) != ObjectKey(r2, extension)
    ensures TempPath(ObjectKey(r1, extension)) != TempPath(ObjectKey(r2, extension))
  {
    var k1, k2 := ObjectKey(r1, extension), ObjectKey(r2, extension);
    if k1 == k2 {
      assert |r1| == |r2|;
      assert Hex.Encode(r1) == k1[..2 * |r1|] == k2[..2 * |r2|] == Hex.Encode(r2);
      Hex.EncodeInjective(r1, r2);
      assert false;
    }
    assert TempPath(k1)[5..] == k1 && TempPath(k2)[5..] == k2;
  }

  /** Writing a file and then removing its path leaves the disk as it was, less that path. */
  lemma StagedThenRemoved(fs: map<string, seq<byte>>, path: string, data: seq<byte>)
    ensures fs[path := data] - {path} == fs - {path}
    ensures (fs - {path}).Keys <= fs.Keys && path !in fs - {path}
  {
    assert (fs[path := data] - {path}).Keys == (fs - {path}).Keys;
  }

  /**
   * Lines 53-65 of the handler: stage the bytes at `path`, open the bucket object and the local
   * file, then write the bucket object from the file and remove the file whether or not that
   * write threw. A failure before the `try` leaves whatever was staged.
   */
  method StageAndWrite(cfg: Config, path: string, key: string, data: seq<byte>, contentType: string,
                       stagingSucceeds: bool, writeSucceeds: bool) returns (r: Result<()>)
    modifies cfg
    ensures cfg.db == old(cfg.db)
    ensures !stagingSucceeds ==>
      && r == Err(DiskFailure) && cfg.s3 == old(cfg.s3)
      && cfg.fs - {path} == old(cfg.fs) - {path} && cfg.fs.Keys <= old(cfg.fs).Keys + {path}
    ensures stagingSucceeds ==>
      && cfg.fs == old(cfg.fs) - {path}
      && cfg.s3 == (if writeSucceeds then old(cfg.s3)[key := StoredObject(data, contentType)] else old(cfg.s3))
      && r == (if writeSucceeds then Ok(()) else Err(StorageFailure))
  {
    // Bun.write(filePath, buffer)
    ghost var before := cfg.fs;
    cfg.fs := cfg.fs[path := data];
    StagedThenRemoved(before, path, data);
    // s3Client.file(key, ...) and Bun.file(filePath), still outside the try
    if !stagingSucceeds {
      return Err(DiskFailure);
    }
    // try { s3File.write(Bun.file(filePath), { type: mediaType }) } finally { rm(filePath, { force: true }) }
    if writeSucceeds {
      cfg.s3 := cfg.s3[key := StoredObject(cfg.fs[path], contentType)];
    }
    cfg.fs := cfg.fs - {path};
    r := if writeSucceeds then Ok(()) else Err(StorageFailure);
  }

  /**
   * `handlerUploadVideo`. The random bytes stand for `randomBytes(32)`. `stagingSucceeds` says
   * whether staging returned: writing the bytes to the temporary path and opening the bucket
   * object and the local file, all of which run before the `try`. `writeSucceeds` says whether
   * the object store's write returned or threw. The temporary file is removed in the `finally`,
   * so whether or not the store's write threw, but a staging failure can leave it behind. Only
   * after a successful write does the handler record the address.
   */
  method UploadVideo(cfg: Config, videoId: Option<string>, credential: Credential, form: FormData,
                     random: seq<byte>, stagingSucceeds: bool, writeSucceeds: bool) returns (r: Result<()>)
    requires cfg.Valid()
    requires |random| == 32
    modifies cfg
    ensures cfg.Valid()
    ensures var gate := CheckUpload(videoId, credential, old(cfg.db), form);
      gate.Err? ==> r == Err(gate.error) && cfg.db == old(cfg.db) && cfg.fs == old(cfg.fs) && cfg.s3 == old(cfg.s3)
    ensures var gate := CheckUpload(videoId, credential, old(cfg.db), form);
      var path := TempPath(ObjectKey(random, "mp4"));
      gate.Ok? && !stagingSucceeds ==>
        && r == Err(DiskFailure)
        && cfg.db == old(cfg.db) && cfg.s3 == old(cfg.s3)
        && cfg.fs - {path} == old(cfg.fs) - {path}
    ensures var gate := CheckUpload(videoId, credential, old(cfg.db), form);
      var key := ObjectKey(random, "mp4");
      gate.Ok? && stagingSucceeds ==>
        && cfg.fs == old(cfg.fs) - {TempPath(key)}
        && cfg.s3 == (if writeSucceeds then old(cfg.s3)[key := StoredObject(gate.value.file.data, AcceptedType)] else old(cfg.s3))
        && r == (if writeSucceeds then Ok(()) else Err(StorageFailure))
        && cfg.db == (if writeSucceeds
                      then old(cfg.db)[gate.value.id := gate.value.video.(videoURL := Some(ObjectURL(cfg.s3Bucket, cfg.s3Region, key)))]
                      else old(cfg.db))
    ensures r.Ok? <==> CheckUpload(videoId, credential, old(cfg.db), form).Ok? && stagingSucceeds && writeSucceeds
    ensures r.Err? ==> cfg.db == old(cfg.db)
    ensures cfg.fs.Keys <= old(cfg.fs).Keys + {TempPath(ObjectKey(random, "mp4"))}
    ensures stagingSucceeds ==> cfg.fs.Keys <= old(cfg.fs).Keys
  {
    var gate := CheckUpload(videoId, credential, cfg.db, form);
    if gate.Err? {
      return Err(gate.error);
    }
    var upload := gate.value;
    var mediaType := upload.file.mediaType;
    // mediaType.split("/")[1]
    var extension := Extension(mediaType);
    AcceptedTypeParts();
    var key := ObjectKey(random, extension);
    var path := TempPath(key);
    var url := ObjectURL(cfg.s3Bucket, cfg.s3Region, key);

    r := StageAndWrite(cfg, path, key, upload.file.data, mediaType, stagingSucceeds, writeSucceeds);
    if r.Err? {
      return;
    }

    // video.videoURL = videoURL; updateVideo(cfg.db, video)
    PublishKeepsAddressesStored(old(cfg.db), old(cfg.s3), cfg.s3Bucket, cfg.s3Region, upload.id, upload.video, key,
                                StoredObject(upload.file.data, mediaType));
    cfg.db := cfg.db[upload.id := upload.video.(videoURL := Some(url))];
    r := Ok(());
  }
}
