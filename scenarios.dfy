/** What a caller can conclude from the handlers' contracts alone, on concrete requests. */
module Scenarios {
  import opened Basics
  import opened Api
  import Videos
  import Thumbnails

  /** The owner uploads a small mp4; then another user tries to overwrite it and is refused. */
  method VideoScenario(random: seq<byte>)
    requires |random| == 32
  {
    var cfg := new Config("bucket", "us-east-2", map["v1" := Video("alice", None, None)], map[]);
    var upload := File([1, 2, 3], "video/mp4");
    var form := [("video", FileValue(upload))];
    var key := Videos.ObjectKey(random, "mp4");

    var r := Videos.UploadVideo(cfg, Some("v1"), Bearer("alice"), form, random, true, true);
    assert r == Ok(());
    assert cfg.db["v1"] == Video("alice", Some(ObjectURL("bucket", "us-east-2", key)), None);
    assert cfg.s3[key] == StoredObject([1, 2, 3], "video/mp4");
    assert cfg.fs == map[];

    r := Videos.UploadVideo(cfg, Some("v1"), Bearer("bob"), form, random, true, true);
    assert r == Err(Forbidden(NotOwnerMessage));
    assert cfg.db["v1"].videoURL == Some(ObjectURL("bucket", "us-east-2", key));
  }

  /** A write to the bucket that throws leaves the record alone and the disk clean; a staging failure leaves the record alone too. */
  method FailedWriteScenario(random: seq<byte>)
    requires |random| == 32
  {
    var cfg := new Config("bucket", "us-east-2", map["v1" := Video("alice", None, None)], map[]);
    var form := [("video", FileValue(File([7], "video/mp4")))];
    var r := Videos.UploadVideo(cfg, Some("v1"), Bearer("alice"), form, random, true, false);
    assert r == Err(StorageFailure);
    assert cfg.db["v1"].videoURL == None;
    assert cfg.fs == map[] && cfg.s3 == map[];

    r := Videos.UploadVideo(cfg, Some("v1"), Bearer("alice"), form, random, false, true);
    assert r == Err(DiskFailure);
    assert cfg.db["v1"].videoURL == None && cfg.s3 == map[];
  }

  /** A quicktime file is refused even from the owner; a thumbnail of any type is stored inline. */
  method ThumbnailScenario(random: seq<byte>)
    requires |random| == 32
  {
    var cfg := new Config("bucket", "us-east-2", map["v1" := Video("alice", None, None)], map[]);
    var r := Videos.UploadVideo(cfg, Some("v1"), Bearer("alice"), [("video", FileValue(File([], "video/quicktime")))], random, true, true);
    assert r == Err(BadRequest(Videos.InvalidTypeMessage));

    var image := File([0, 255], "image/gif");
    var t := Thumbnails.UploadThumbnail(cfg, Some("v1"), Bearer("alice"), [("thumbnail", FileValue(image))]);
    assert t.Ok? && t.value.thumbnailURL == Some(Thumbnails.DataURL("image/gif", [0, 255]));
    Thumbnails.ParseDataURLOfDataURL("image/gif", [0, 255]);
    assert Thumbnails.ParseDataURL(t.value.thumbnailURL.value) == Some(("image/gif", [0, 255]));
    assert cfg.db["v1"].videoURL == None;
  }
}
