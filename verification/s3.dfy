/** The object-storage service: where an uploaded file is stored and under
    which public URL it can be fetched. The storage client is a bucket of
    objects whose `Put` may fail. */
module S3 {
  import opened Outcomes
  import opened Text

  type Blob = seq<bv8>

  /** The storage settings the service reads: the optional custom endpoint,
      the public base URL used with it, and the bucket name. */
  datatype Config = Config(endpointUrl: Option<string>, publicUrl: string, bucketName: string)

  /** What `upload_file` returns: the public URL and the object key. */
  datatype Upload = Upload(publicUrl: string, key: string)

  /** The bucket behind the storage client: its objects by key. */
  class ObjectStore {
    var objects: map<string, Blob>

    constructor ()
      ensures objects == map[]
    {
      objects := map[];
    }

    /** The transfer of `blob` under `key`. Whether the remote end takes
        it (network, credentials, capacity) is outside the model and
        arrives as `accepted`; a refused transfer stores nothing. */
    method Put(key: string, blob: Blob, accepted: bool) returns (ok: bool)
      modifies this
      ensures ok == accepted
      ensures objects == if ok then old(objects)[key := blob] else old(objects)
    {
      ok := accepted;
      if ok {
        objects := objects[key := blob];
      }
    }
  }

  /** `filename.split('.')[-1]`: the text after the last dot, or the whole
      filename when it has no dot. Its case is kept. */
  function Extension(filename: string): (ext: string)
    ensures IsLastSegment(filename, ext, '.')
    ensures '.' !in filename ==> ext == filename
  {
    LastPieceIsTail(filename, '.');
    assert '.' !in Last(SplitOn(filename, '.'));
    Last(SplitOn(filename, '.'))
  }

  /** The object key: the unique token, a dot, and the filename's last
      dot-separated segment. The key starts with the token and a dot, and
      its own extension is that of the filename. */
  function StorageKey(token: string, filename: string): (key: string)
    ensures |key| > |token| && key[..|token| + 1] == token + "."
    ensures Extension(key) == Extension(filename)
  {
    ExtensionAfterLastDot(token, Extension(filename));
    token + "." + Extension(filename)
  }

  /** Whatever precedes the last dot, the extension is what follows it,
      in its own case: "trip.JPG" has the extension "JPG". */
  lemma ExtensionAfterLastDot(name: string, ext: string)
    requires '.' !in ext
    ensures Extension(name + "." + ext) == ext
  {
    var s := name + "." + ext;
    assert s[|s| - |ext| - 1] == '.';
    assert s[|s| - |ext|..] == ext;
    assert IsLastSegment(s, ext, '.');
    LastSegmentUnique(s, ext, Extension(s), '.');
  }

  /** A filename without a dot is the whole suffix of its key. */
  lemma KeyOfUndottedName(token: string, filename: string)
    requires '.' !in filename
    ensures StorageKey(token, filename) == token + "." + filename
  {
  }

  /** With a token free of dots, as a UUID string is, the key splits back
      into exactly the token and the extension. */
  lemma KeySplitsIntoTokenAndExtension(token: string, filename: string)
    requires '.' !in token
    ensures SplitOn(StorageKey(token, filename), '.') == [token, Extension(filename)]
  {
    var ext := Extension(filename);
    assert StorageKey(token, filename) == token + ['.'] + ext;
    SplitAfterPiece(token, '.', ext);
    SplitWithoutSep(ext, '.');
    assert token + "." + ext == token + ['.'] + ext;
  }

  /** The public URL of an object: the configured public base when a
      custom endpoint is set, the default virtual-host S3 URL of the bucket
      otherwise; either way it ends with "/" and the key. */
  function PublicUrl(config: Config, key: string): (url: string)
    ensures |url| > |key| && url[|url| - |key| - 1..] == "/" + key
    ensures Truthy(config.endpointUrl) ==> url[..|url| - |key| - 1] == config.publicUrl
    ensures !Truthy(config.endpointUrl)
            ==> url[..|url| - |key| - 1] == "https://" + config.bucketName + ".s3.amazonaws.com"
  {
    if Truthy(config.endpointUrl) then config.publicUrl + "/" + key
    else "https://" + config.bucketName + ".s3.amazonaws.com/" + key
  }

  /** Under one configuration, distinct keys get distinct URLs. */
  lemma {:induction false} PublicUrlInjective(config: Config, key1: string, key2: string)
    requires PublicUrl(config, key1) == PublicUrl(config, key2)
    ensures key1 == key2
  {
    var u1, u2 := PublicUrl(config, key1), PublicUrl(config, key2);
    assert |u1| - |key1| - 1 == |u2| - |key2| - 1;
    assert key1 == u1[|u1| - |key1|..];
    assert key2 == u2[|u2| - |key2|..];
  }

  /** `S3Service`: the storage client and its settings. */
  class S3Service {
    const bucket: ObjectStore
    const config: Config

    constructor (bucket: ObjectStore, config: Config)
      ensures this.bucket == bucket && this.config == config
    {
      this.bucket := bucket;
      this.config := config;
    }

    /** `upload_file`: derives the key from the token and the filename,
        transfers the blob, and only when the transfer succeeded returns
        the URL and the key. */
    method UploadFile(token: string, filename: string, blob: Blob, accepted: bool) returns (r: Result<Upload>)
      modifies bucket
      ensures r.Err? <==> !accepted
      ensures r.Err? ==> r.error == StorageFailure && bucket.objects == old(bucket.objects)
      ensures r.Ok? ==> && r.value.key == StorageKey(token, filename)
                        && r.value.publicUrl == PublicUrl(config, r.value.key)
                        && bucket.objects == old(bucket.objects)[r.value.key := blob]
    {
      var key := StorageKey(token, filename);
      var ok := bucket.Put(key, blob, accepted);
      if !ok {
        return Err(StorageFailure);
      }
      var url := PublicUrl(config, key);
      r := Ok(Upload(url, key));
    }
  }
}
