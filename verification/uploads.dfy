/** The upload middleware's acceptance rule: the file filter admits a fixed
    list of image and video MIME types by exact comparison, and files larger
    than 100 MiB are refused. */
module Uploads {
  import opened Common

  /** The MIME types the filter admits, in the order listed. */
  const AllowedTypes: seq<string> :=
    ["image/jpeg", "image/png", "image/jpg", "video/mp4", "video/webm", "video/x-matroska"]

  const RejectMessage: string := "Only images (jpg, png) and videos (mp4, mkv, webm) are allowed"

  /** The size limit in bytes: 100 × 1024 × 1024. */
  const MaxFileSize: nat := 1024 * 1024 * 100

  /** What the filter passes to multer's callback: no error and `true`, or an
      error message and `false`. */
  datatype FilterResult = FilterResult(error: Option<string>, accept: bool)

  /** `allowedTypes.includes(mimetype)`: exact membership in the list. */
  function Includes(list: seq<string>, x: string): (b: bool)
    ensures b <==> exists i :: 0 <= i < |list| && list[i] == x
  {
    if |list| == 0 then false
    else if list[0] == x then true
    else
      assert forall i :: 1 <= i < |list| ==> list[i] == list[1..][i - 1];
      Includes(list[1..], x)
  }

  /** `fileFilter`: accept exactly the listed types; on rejection, report the
      error and refuse. */
  function FileFilter(mimetype: string): (r: FilterResult)
    ensures r.accept <==> mimetype in AllowedTypes
    ensures r.accept <==> r.error.None?
    ensures r.error.Some? ==> r.error.value == RejectMessage
  {
    if Includes(AllowedTypes, mimetype) then FilterResult(None, true)
    else FilterResult(Some(RejectMessage), false)
  }

  /** The limit is 104,857,600 bytes. */
  lemma MaxFileSizeValue()
    ensures MaxFileSize == 104857600
  {
  }

  /** Exactly six types pass; near misses such as another image type or a
      different letter case do not. */
  lemma AllowlistExact()
    ensures forall t :: FileFilter(t).accept <==>
      t in {"image/jpeg", "image/png", "image/jpg", "video/mp4", "video/webm", "video/x-matroska"}
    ensures !FileFilter("image/gif").accept
    ensures !FileFilter("IMAGE/PNG").accept
    ensures !FileFilter("video/mkv").accept
  {
    assert "IMAGE/PNG"[0] != "image/png"[0];
    assert "video/mkv" != "video/x-matroska" by { assert |"video/mkv"| != |"video/x-matroska"|; }
  }
}
