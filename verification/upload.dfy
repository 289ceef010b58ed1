/** The request-building part of `upload_to_cloudinary` (image_resize.py):
    the download headers, the signed parameters and the form body of the
    upload call. The HTTP exchanges themselves are not modelled here. */
module Upload {
  import opened Wrappers
  import opened Strings
  import opened Ordering
  import opened Signature

  /** `CLD_FOLDER`. */
  const Folder: string := "husq_parts"

  const UserAgent: string := "Mozilla/5.0"
  const AcceptImages: string := "image/avif,image/webp,image/apng,image/*,*/*;q=0.8"

  /** The headers of the image download; a referer is sent only when one
      is given and it is not empty. */
  function FetchHeaders(referer: Option<string>): (d: Dict)
    ensures Valid(d)
    ensures "User-Agent" in d.entries && d.entries["User-Agent"] == UserAgent
    ensures "Accept" in d.entries && d.entries["Accept"] == AcceptImages
    ensures "Referer" in d.entries <==> referer.Some? && referer.value != ""
    ensures "Referer" in d.entries ==> d.entries["Referer"] == referer.value
    ensures |d.entries| <= 3
  {
    var base := Put(Put(EmptyDict, "User-Agent", UserAgent), "Accept", AcceptImages);
    match referer
    case Some(r) =>
      if r != "" then Put(base, "Referer", r) else base
    case None => base
  }

  /** `sign_params`: folder, overwrite, unique_filename and timestamp, plus
      `public_id` only when the identifier is not empty. */
  function SignParams(folder: string, timestamp: string, publicId: string): (d: Dict)
    ensures Valid(d)
    ensures d.order == ["folder", "overwrite", "unique_filename", "timestamp"]
                       + (if publicId != "" then ["public_id"] else [])
  {
    var base := Dict(["folder", "overwrite", "unique_filename", "timestamp"],
                     map["folder" := folder, "overwrite" := "true",
                         "unique_filename" := "false", "timestamp" := timestamp]);
    if publicId != "" then Put(base, "public_id", publicId) else base
  }

  /** The values `sign_params` carries. */
  lemma SignParamsValues(folder: string, timestamp: string, publicId: string)
    ensures var d := SignParams(folder, timestamp, publicId);
      && d.entries["folder"] == folder && d.entries["timestamp"] == timestamp
      && d.entries["overwrite"] == "true" && d.entries["unique_filename"] == "false"
      && ("public_id" in d.entries <==> publicId != "")
      && (publicId != "" ==> d.entries["public_id"] == publicId)
  {
    var base := map["folder" := folder, "overwrite" := "true",
                    "unique_filename" := "false", "timestamp" := timestamp];
    assert base["folder"] == folder && base["timestamp"] == timestamp;
    assert base["overwrite"] == "true" && base["unique_filename"] == "false";
    assert "public_id" !in base;
  }

  /** `file`, `api_key` and `signature` are never among the signed names. */
  lemma UnsignedNamesNotSigned(timestamp: string, publicId: string)
    ensures forall k :: k in SignParams(Folder, timestamp, publicId).entries ==>
      k != "file" && k != "api_key" && k != "signature"
  {
    var o := SignParams(Folder, timestamp, publicId).order;
    var names := ["folder", "overwrite", "unique_filename", "timestamp", "public_id"];
    assert forall k :: k in o ==> k in names;
    assert forall i | 0 <= i < |names| :: names[i] != "file" && names[i] != "api_key" && names[i] != "signature";
  }

  /** The form body posted to the upload endpoint,
      `{"file": data_url, **sign_params, "api_key": key, "signature": sig}`. */
  function UploadForm(dataUrl: string, timestamp: string, publicId: string,
                      apiKey: string, apiSecret: string, sha1Hex: string -> string): (d: Dict)
    ensures Valid(d)
  {
    var sign := SignParams(Folder, timestamp, publicId);
    var sig := Sign(sign, apiSecret, sha1Hex);
    UnsignedNamesNotSigned(timestamp, publicId);
    FormPartsDisjoint(sign, dataUrl, apiKey, sig);
    Concat(Concat(FileField(dataUrl), sign), AuthFields(apiKey, sig))
  }

  /** The file field, the signed parameters and the authentication fields
      name different things. */
  lemma FormPartsDisjoint(sign: Dict, dataUrl: string, apiKey: string, sig: string)
    requires forall k :: k in sign.entries ==> k != "file" && k != "api_key" && k != "signature"
    ensures forall k :: k in FileField(dataUrl).entries ==> k !in sign.entries
    ensures forall k :: k in FileField(dataUrl).entries + sign.entries ==> k !in AuthFields(apiKey, sig).entries
  {
    var head := FileField(dataUrl);
    var tail := AuthFields(apiKey, sig);
    assert forall k :: k in head.entries ==> k == "file";
    assert forall k :: k in tail.entries ==> k == "api_key" || k == "signature";
  }

  function FileField(dataUrl: string): (d: Dict)
    ensures Valid(d) && d.order == ["file"]
    ensures "file" in d.entries && d.entries["file"] == dataUrl
  {
    Dict(["file"], map["file" := dataUrl])
  }

  function AuthFields(apiKey: string, signature: string): (d: Dict)
    ensures Valid(d) && d.order == ["api_key", "signature"]
    ensures "api_key" in d.entries && d.entries["api_key"] == apiKey
    ensures "signature" in d.entries && d.entries["signature"] == signature
  {
    Dict(["api_key", "signature"], map["api_key" := apiKey, "signature" := signature])
  }

  /** The upload form carries the data, the API key, every signed parameter
      with its own value, and the signature computed over the signed
      parameters alone. */
  lemma UploadFormContents(dataUrl: string, timestamp: string, publicId: string,
                           apiKey: string, apiSecret: string, sha1Hex: string -> string)
    ensures var d := UploadForm(dataUrl, timestamp, publicId, apiKey, apiSecret, sha1Hex);
      var sign := SignParams(Folder, timestamp, publicId);
      && d.order == ["file"] + sign.order + ["api_key", "signature"]
      && d.entries["file"] == dataUrl
      && d.entries["api_key"] == apiKey
      && d.entries["signature"] == Sign(sign, apiSecret, sha1Hex)
      && (forall k :: k in sign.entries ==> k in d.entries && d.entries[k] == sign.entries[k])
  {
    var sign := SignParams(Folder, timestamp, publicId);
    UnsignedNamesNotSigned(timestamp, publicId);
    var sig := Sign(sign, apiSecret, sha1Hex);
    var head := FileField(dataUrl);
    var tail := AuthFields(apiKey, sig);
    FormPartsDisjoint(sign, dataUrl, apiKey, sig);
    var d := UploadForm(dataUrl, timestamp, publicId, apiKey, apiSecret, sha1Hex);
    assert d.entries == head.entries + sign.entries + tail.entries;
    assert "file" in head.entries + sign.entries;
  }

  /** The signed names in ascending order. */
  lemma SignedNamesAscending()
    ensures StrictlySorted(["folder", "overwrite", "public_id", "timestamp", "unique_filename"])
    ensures StrictlySorted(["folder", "overwrite", "timestamp", "unique_filename"])
  {
    assert Lt("folder", "overwrite") && Lt("folder", "public_id");
    assert Lt("folder", "timestamp") && Lt("folder", "unique_filename");
    assert Lt("overwrite", "public_id") && Lt("overwrite", "timestamp");
    assert Lt("overwrite", "unique_filename") && Lt("public_id", "timestamp");
    assert Lt("public_id", "unique_filename") && Lt("timestamp", "unique_filename");
  }

  /** With a public_id, all five parameters are signed, in this order. */
  lemma SignedKeysWithId(timestamp: string, publicId: string)
    requires timestamp != "" && publicId != ""
    ensures SignedKeys(SignParams(Folder, timestamp, publicId))
      == ["folder", "overwrite", "public_id", "timestamp", "unique_filename"]
  {
    var d := SignParams(Folder, timestamp, publicId);
    var want := ["folder", "overwrite", "public_id", "timestamp", "unique_filename"];
    SignParamsValues(Folder, timestamp, publicId);
    SignedNamesAscending();
    assert forall k :: k in d.order <==> k in want;
    SignedKeysAre(d, want);
  }

  /** Without a public_id, the other four parameters are signed. */
  lemma SignedKeysWithoutId(timestamp: string)
    requires timestamp != ""
    ensures SignedKeys(SignParams(Folder, timestamp, ""))
      == ["folder", "overwrite", "timestamp", "unique_filename"]
  {
    var d := SignParams(Folder, timestamp, "");
    var want := ["folder", "overwrite", "timestamp", "unique_filename"];
    SignParamsValues(Folder, timestamp, "");
    SignedNamesAscending();
    assert forall k :: k in d.order <==> k in want;
    SignedKeysAre(d, want);
  }

  /** The exact text signed for an upload with a non-empty public_id:
      `folder=husq_parts&overwrite=true&public_id=<id>&timestamp=<ts>&unique_filename=false`
      followed by the secret. */
  lemma CanonicalOfUpload(timestamp: string, publicId: string, secret: string)
    requires timestamp != "" && publicId != ""
    ensures Canonical(SignParams(Folder, timestamp, publicId), secret)
      == Join(["folder" + "=" + Folder, "overwrite" + "=" + "true", "public_id" + "=" + publicId,
               "timestamp" + "=" + timestamp, "unique_filename" + "=" + "false"], "&") + secret
  {
    PairsOfUpload(timestamp, publicId);
  }

  lemma PairsOfUpload(timestamp: string, publicId: string)
    requires timestamp != "" && publicId != ""
    ensures var d := SignParams(Folder, timestamp, publicId);
      Pairs(SignedKeys(d), d.entries)
        == ["folder" + "=" + Folder, "overwrite" + "=" + "true", "public_id" + "=" + publicId,
            "timestamp" + "=" + timestamp, "unique_filename" + "=" + "false"]
  {
    var d := SignParams(Folder, timestamp, publicId);
    SignedKeysWithId(timestamp, publicId);
    SignParamsValues(Folder, timestamp, publicId);
    PairsOfFive(SignedKeys(d), d.entries, Folder, timestamp, publicId);
  }

  lemma PairsOfFive(ks: seq<string>, m: map<string, string>, folder: string, timestamp: string, publicId: string)
    requires ks == ["folder", "overwrite", "public_id", "timestamp", "unique_filename"]
    requires forall k :: k in ks ==> k in m
    requires m["folder"] == folder && m["overwrite"] == "true" && m["public_id"] == publicId
    requires m["timestamp"] == timestamp && m["unique_filename"] == "false"
    ensures Pairs(ks, m)
        == ["folder" + "=" + folder, "overwrite" + "=" + "true", "public_id" + "=" + publicId,
            "timestamp" + "=" + timestamp, "unique_filename" + "=" + "false"]
  {
    var p := Pairs(ks, m);
    assert p[0] == "folder" + "=" + folder;
    assert p[1] == "overwrite" + "=" + "true";
    assert p[2] == "public_id" + "=" + publicId;
    assert p[3] == "timestamp" + "=" + timestamp;
    assert p[4] == "unique_filename" + "=" + "false";
  }
}
