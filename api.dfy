/**
 * What the two handler files share: the error kinds they throw, the video record, the parts
 * of a request they read, the gates both upload handlers run first, and the configuration
 * object `cfg` whose database, local disk and object store the handlers change.
 */
module Api {
  import opened Basics

  type VideoId = string
  type UserId = string

  /** The exceptions a handler throws; the HTTP layer turns each into a status code. */
  datatype ApiError =
    | BadRequest(message: string)
    | NotFound(message: string)
    | Forbidden(message: string)
      /** Thrown by the bearer-token helpers, whose messages are not part of this model. */
    | Unauthenticated
      /** The object store's write threw; the handler passes the exception on. */
    | StorageFailure
      /** Staging the upload as a local file threw, before the object store was reached. */
    | DiskFailure

  datatype Result<T> = Ok(value: T) | Err(error: ApiError)

  /** A row of the video table as the handlers see it. */
  datatype Video = Video(userID: UserId, videoURL: Option<string>, thumbnailURL: Option<string>)

  /** An uploaded file: its bytes and the media type the client declared. */
  datatype File = File(data: seq<byte>, mediaType: string) {
    /** `file.size`: the number of bytes. */
    function Size(): nat { |data| }
  }

  /** A multipart form field holds either a file or a plain string. */
  datatype FormValue = FileValue(file: File) | TextValue(text: string)

  type FormData = seq<(string, FormValue)>

  /** What the bearer-token helpers make of the request: the caller's user ID, or a rejection. */
  datatype Credential = Bearer(userID: UserId) | Rejected

  const InvalidIdMessage := "Invalid video ID"
  const NotOwnerMessage := "You are not the owner of this Video!"

  /** `!videoId` is false: the route parameter is present and not empty. */
  predicate HasId(videoId: Option<string>) {
    videoId.Some? && videoId.value != ""
  }

  /** `formData.get(field)` when it is an instance of `File`; `None` for a missing field or a string. */
  function FormFile(form: FormData, field: string): (r: Option<File>)
    ensures r.Some? <==> FirstValue(form, field).Some? && FirstValue(form, field).value.FileValue?
    ensures r.Some? ==> FirstValue(form, field) == Some(FileValue(r.value))
  {
    match FirstValue(form, field)
    case Some(v) => if v.FileValue? then Some(v.file) else None
    case None => None
  }

  /** What the shared gates hand on: the target ID, its record as read, and the uploaded file. */
  datatype Upload = Upload(id: VideoId, video: Video, file: File)

  predicate IsOwner(db: map<VideoId, Video>, id: VideoId, credential: Credential) {
    credential.Bearer? && id in db && db[id].userID == credential.userID
  }

  /**
   * The gates both upload handlers run before looking at the file's size: the ID, the token,
   * the record, its owner, then the form field. Each decides only when all before it passed.
   */
  function CheckOwnedUpload(videoId: Option<string>, credential: Credential, db: map<VideoId, Video>,
                            form: FormData, field: string, missing: string): (r: Result<Upload>)
    ensures !HasId(videoId) ==> r == Err(BadRequest(InvalidIdMessage))
    ensures HasId(videoId) && credential.Rejected? ==> r == Err(Unauthenticated)
    ensures HasId(videoId) && credential.Bearer? && videoId.value !in db ==> r == Err(NotFound("Video not found"))
    ensures HasId(videoId) && credential.Bearer? && videoId.value in db && !IsOwner(db, videoId.value, credential) ==>
              r == Err(Forbidden(NotOwnerMessage))
    ensures HasId(videoId) && IsOwner(db, videoId.value, credential) && FormFile(form, field).None? ==>
              r == Err(BadRequest(missing))
    ensures r.Ok? <==> HasId(videoId) && IsOwner(db, videoId.value, credential) && FormFile(form, field).Some?
    ensures r.Ok? ==> r.value == Upload(videoId.value, db[videoId.value], FormFile(form, field).value)
  {
    if !HasId(videoId) then Err(BadRequest(InvalidIdMessage))
    else if credential.Rejected? then Err(Unauthenticated)
    else if videoId.value !in db then Err(NotFound("Video not found"))
    else if db[videoId.value].userID != credential.userID then Err(Forbidden(NotOwnerMessage))
    else match FormFile(form, field)
      case None => Err(BadRequest(missing))
      case Some(file) => Ok(Upload(videoId.value, db[videoId.value], file))
  }

  /** An object in the bucket: its bytes and the content type it was written with. */
  datatype StoredObject = StoredObject(data: seq<byte>, contentType: string)

  /** The public address of `key` in a bucket of the object store. */
  function ObjectURL(bucket: string, region: string, key: string): (url: string)
    ensures |url| == 8 + |bucket| + 4 + |region| + 15 + |key|
    ensures url[|url| - |key|..] == key
  {
    "https://" + bucket + ".s3." + region + ".amazonaws.com/" + key
  }

  /** Two keys of one bucket share a public address only if they are the same key. */
  lemma ObjectURLInjective(bucket: string, region: string, k1: string, k2: string)
    requires ObjectURL(bucket, region, k1) == ObjectURL(bucket, region, k2)
    ensures k1 == k2
  {
    var u := ObjectURL(bucket, region, k1);
    assert k1 == u[|u| - |k1|..];
  }

  /** Every video address a record holds names an object that is in the bucket. */
  ghost predicate AddressesStored(db: map<VideoId, Video>, s3: map<string, StoredObject>, bucket: string, region: string) {
    forall id | id in db && db[id].videoURL.Some? ::
      exists key | key in s3 :: db[id].videoURL.value == ObjectURL(bucket, region, key)
  }

  /** Storing an object and then pointing one record at it keeps every address stored. */
  lemma PublishKeepsAddressesStored(db: map<VideoId, Video>, s3: map<string, StoredObject>, bucket: string, region: string,
                                    id: VideoId, video: Video, key: string, stored: StoredObject)
    requires AddressesStored(db, s3, bucket, region)
    ensures AddressesStored(db[id := video.(videoURL := Some(ObjectURL(bucket, region, key)))], s3[key := stored], bucket, region)
  {
    var db', s3' := db[id := video.(videoURL := Some(ObjectURL(bucket, region, key)))], s3[key := stored];
    forall i | i in db' && db'[i].videoURL.Some?
      ensures exists k | k in s3' :: db'[i].videoURL.value == ObjectURL(bucket, region, k)
    {
      if i == id {
        assert key in s3';
      } else {
        var k :| k in s3 && db[i].videoURL.value == ObjectURL(bucket, region, k);
        assert k in s3';
      }
    }
  }

  /** A record update that leaves the video address alone keeps every address stored. */
  lemma OtherFieldsKeepAddressesStored(db: map<VideoId, Video>, s3: map<string, StoredObject>, bucket: string, region: string,
                                       id: VideoId, video: Video)
    requires AddressesStored(db, s3, bucket, region)
    requires id in db && video.videoURL == db[id].videoURL
    ensures AddressesStored(db[id := video], s3, bucket, region)
  {
    var db' := db[id := video];
    forall i | i in db' && db'[i].videoURL.Some?
      ensures exists k | k in s3 :: db'[i].videoURL.value == ObjectURL(bucket, region, k)
    {
      assert db'[i].videoURL == db[i].videoURL;
    }
  }

  /**
   * The `cfg` the handlers receive, reduced to what they use: the bucket's name and region,
   * the video table, the local file system (path to contents) and the bucket (key to object).
   */
  class Config {
    const s3Bucket: string
    const s3Region: string
    var db: map<VideoId, Video>
    var fs: map<string, seq<byte>>
    var s3: map<string, StoredObject>

    /** Every video address a record holds names an object that is in the bucket. */
    ghost predicate Valid()
      reads this
    {
      AddressesStored(db, s3, s3Bucket, s3Region)
    }

    /** A configuration over video records that have no video yet, and an empty bucket. */
    constructor (bucket: string, region: string, videos: map<VideoId, Video>, files: map<string, seq<byte>>)
      requires forall id | id in videos :: videos[id].videoURL.None?
      ensures Valid()
      ensures s3Bucket == bucket && s3Region == region
      ensures db == videos && fs == files && s3 == map[]
    {
      s3Bucket, s3Region := bucket, region;
      db, fs, s3 := videos, files, map[];
    }
  }
}
