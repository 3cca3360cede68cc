/** The post editor's list of staged images and the client-side rules that
    guard it: the per-image pixel limits (`checkImageDimensions`), batch
    admission for the file picker and the two drop zones
    (`setupImageUpload`), appending the upload reply, and `removeImage`. */
module Staging {
  import opened Common

  const MaxStaged: int := 15
  const MaxFileBytes: nat := 5 * 1024 * 1024
  const MaxSide: nat := 10000
  const MaxPixels: nat := 25000000

  /** An entry of the staged list: a bare URL string when it was loaded
      from an existing post, or the `{original, thumbnail}` pair the
      upload endpoint returned during this session. */
  datatype StagedImage = Legacy(url: string) | Uploaded(original: string, thumbnail: string)

  /** What decoding a picked file gives: its pixel size, or an error. */
  datatype Decoded = Pixels(width: nat, height: nat) | Undecodable

  /** A file offered by the picker or a drop: byte size, MIME type and
      what the browser decodes it to. */
  datatype PickedFile = PickedFile(size: nat, mimeType: string, decoded: Decoded)

  /** Where a batch comes from: the file input, or a drag-and-drop onto the
      placeholder or the preview strip (both drop zones behave alike). */
  datatype Source = Picker | Drop

  /** `reason` of a failed dimension check; a decoding error carries none. */
  datatype DimensionReason = SideTooLong | TooManyPixels | NotDecodable

  datatype DimensionVerdict = Fits | Exceeds(reason: DimensionReason)

  /** Which of the two "image too large" alerts the user sees. A decoding
      error has no `megapixels` reason and so gets the side-length alert. */
  datatype LimitAlert = PixelLimitAlert | SideLimitAlert

  /** Why a batch was refused before any upload request; file indices are
      positions in the batch that was screened. */
  datatype Rejection =
    | NoImageFiles
    | TooMany(remaining: int)
    | FileTooBig(index: nat)
    | ImageTooLarge(index: nat, alert: LimitAlert)

  /** One image as the upload endpoint reports it. */
  datatype UploadedFile = UploadedFile(url: string, thumbnail: string)

  /** The pixel budget every accepted image stays within. */
  predicate WithinPixelBudget(width: nat, height: nat) {
    width <= MaxSide && height <= MaxSide && width * height <= MaxPixels
  }

  /** `checkImageDimensions`: the per-side limit is checked before the
      pixel-count limit, so an image breaking both reports the side. */
  function CheckDimensions(d: Decoded): (v: DimensionVerdict)
    ensures v.Fits? <==> d.Pixels? && WithinPixelBudget(d.width, d.height)
    ensures v == Exceeds(SideTooLong) <==> d.Pixels? && (d.width > MaxSide || d.height > MaxSide)
    ensures v == Exceeds(NotDecodable) <==> d.Undecodable?
  {
    match d
    case Undecodable => Exceeds(NotDecodable)
    case Pixels(w, h) =>
      if w > MaxSide || h > MaxSide then Exceeds(SideTooLong)
      else if w * h > MaxPixels then Exceeds(TooManyPixels)
      else Fits
  }

  /** Shrinking an image never makes it fail the dimension check. */
  lemma DimensionCheckMonotone(w: nat, h: nat, w': nat, h': nat)
    requires w' <= w && h' <= h
    requires CheckDimensions(Pixels(w, h)).Fits?
    ensures CheckDimensions(Pixels(w', h')).Fits?
  {
    assert w' * h' <= w * h' <= w * h;
  }

  /** Both limits bite: a 10000 x 10000 image has acceptable sides but four
      times the pixel budget, and a 10001 x 1 strip is tiny but too long. */
  lemma DimensionLimitsAreIndependent()
    ensures CheckDimensions(Pixels(10000, 10000)) == Exceeds(TooManyPixels)
    ensures CheckDimensions(Pixels(10001, 1)) == Exceeds(SideTooLong)
    ensures CheckDimensions(Pixels(20000, 20000)) == Exceeds(SideTooLong)
  {
  }

  /** A file passes the client-side screening. */
  predicate Acceptable(f: PickedFile) {
    f.size <= MaxFileBytes && CheckDimensions(f.decoded).Fits?
  }

  /** The alert shown for the file at `index`, which is not acceptable:
      size is checked before dimensions. */
  function RejectionOf(index: nat, f: PickedFile): (r: Rejection)
    ensures r.FileTooBig? <==> f.size > MaxFileBytes
    ensures r.FileTooBig? || r.ImageTooLarge?
    ensures r.index == index
    ensures r.ImageTooLarge? ==>
              (r.alert == PixelLimitAlert <==> CheckDimensions(f.decoded) == Exceeds(TooManyPixels))
  {
    if f.size > MaxFileBytes then FileTooBig(index)
    else if CheckDimensions(f.decoded) == Exceeds(TooManyPixels) then ImageTooLarge(index, PixelLimitAlert)
    else ImageTooLarge(index, SideLimitAlert)
  }

  /** The screening loop from position `from` on: files are examined in
      order and the first unacceptable one ends the screening. */
  function FirstRejectionFrom(files: seq<PickedFile>, from: nat): (r: Option<Rejection>)
    requires from <= |files|
    ensures r.None? <==> forall k | from <= k < |files| :: Acceptable(files[k])
    ensures r.Some? ==> exists k | from <= k < |files| ::
              && !Acceptable(files[k])
              && (forall j | from <= j < k :: Acceptable(files[j]))
              && r.value == RejectionOf(k, files[k])
    decreases |files| - from
  {
    if from == |files| then None
    else if !Acceptable(files[from]) then Some(RejectionOf(from, files[from]))
    else
      var r := FirstRejectionFrom(files, from + 1);
      FirstRejectionShifts(files, from, r);
      r
  }

  /** An acceptable file at `from` extends the screening of the files
      after it by one position. */
  lemma FirstRejectionShifts(files: seq<PickedFile>, from: nat, r: Option<Rejection>)
    requires from < |files| && Acceptable(files[from])
    requires r.Some? ==> exists k | from + 1 <= k < |files| ::
               && !Acceptable(files[k])
               && (forall j | from + 1 <= j < k :: Acceptable(files[j]))
               && r.value == RejectionOf(k, files[k])
    ensures r.Some? ==> exists k | from <= k < |files| ::
              && !Acceptable(files[k])
              && (forall j | from <= j < k :: Acceptable(files[j]))
              && r.value == RejectionOf(k, files[k])
  {
    if r.Some? {
      var k :| from + 1 <= k < |files| && !Acceptable(files[k])
                && (forall j | from + 1 <= j < k :: Acceptable(files[j]))
                && r.value == RejectionOf(k, files[k]);
      assert forall j | from <= j < k :: Acceptable(files[j]);
    }
  }

  function FirstRejection(files: seq<PickedFile>): Option<Rejection> {
    FirstRejectionFrom(files, 0)
  }

  predicate IsImageType(mimeType: string) {
    "image/" <= mimeType
  }

  /** The drop zones keep only files whose type starts with `image/`,
      in their original order. */
  function ImageFiles(files: seq<PickedFile>): (r: seq<PickedFile>)
    ensures |r| <= |files|
    ensures forall k | 0 <= k < |r| :: IsImageType(r[k].mimeType) && r[k] in files
    ensures forall k | 0 <= k < |files| :: IsImageType(files[k].mimeType) ==> files[k] in r
    ensures (forall k | 0 <= k < |files| :: IsImageType(files[k].mimeType)) ==> r == files
  {
    if |files| == 0 then []
    else if IsImageType(files[0].mimeType) then [files[0]] + ImageFiles(files[1..])
    else ImageFiles(files[1..])
  }

  /** A single file is kept exactly when its type is an image type. */
  lemma ImageFilesOfOne(f: PickedFile)
    ensures ImageFiles([f]) == if IsImageType(f.mimeType) then [f] else []
  {
    assert [f][1..] == [];
  }

  /** Filtering distributes over concatenation; with `ImageFilesOfOne`
      this fixes the result as exactly the image files of the list, each
      once, in order. */
  lemma {:induction false} ImageFilesAppend(a: seq<PickedFile>, b: seq<PickedFile>)
    ensures ImageFiles(a + b) == ImageFiles(a) + ImageFiles(b)
    decreases |a|
  {
    if |a| > 0 {
      assert (a + b)[0] == a[0];
      assert (a + b)[1..] == a[1..] + b;
      ImageFilesAppend(a[1..], b);
    } else {
      assert a + b == b;
    }
  }

  /** The decision taken before any network call. */
  datatype Admission = Upload(batch: seq<PickedFile>) | Refuse(why: Rejection)

  /** Batch admission of `setupImageUpload`: a drop first discards
      non-image files and refuses if none remain; then the batch must fit
      in the room left below the cap of 15 (which is negative when an
      edited post already holds more); then every file is screened. */
  function Admit(staged: seq<StagedImage>, files: seq<PickedFile>, source: Source): (a: Admission)
    ensures a.Upload? ==> |a.batch| <= MaxStaged - |staged|
    ensures a.Upload? ==> forall k | 0 <= k < |a.batch| :: Acceptable(a.batch[k])
    ensures a.Upload? && source == Picker ==> a.batch == files
    ensures a.Upload? && source == Drop ==> a.batch == ImageFiles(files) && |a.batch| > 0
    ensures source == Drop && |ImageFiles(files)| == 0 ==> a == Refuse(NoImageFiles)
    ensures source == Picker && |files| > MaxStaged - |staged| ==> a == Refuse(TooMany(MaxStaged - |staged|))
    ensures (exists k | 0 <= k < |files| :: !Acceptable(files[k])
              && (source == Picker || IsImageType(files[k].mimeType))) ==> a.Refuse?
    ensures (&& source == Picker && |files| <= MaxStaged - |staged|
             && (forall k | 0 <= k < |files| :: Acceptable(files[k])))
            ==> a == Upload(files)
    ensures (&& source == Drop && 0 < |ImageFiles(files)| <= MaxStaged - |staged|
             && (forall k | 0 <= k < |files| :: IsImageType(files[k].mimeType) ==> Acceptable(files[k])))
            ==> a == Upload(ImageFiles(files))
    ensures var batch := if source == Drop then ImageFiles(files) else files;
            (source == Picker || |batch| > 0) && |batch| > MaxStaged - |staged|
            ==> a == Refuse(TooMany(MaxStaged - |staged|))
    ensures var batch := if source == Drop then ImageFiles(files) else files;
            (source == Picker || |batch| > 0) && |batch| <= MaxStaged - |staged| && FirstRejection(batch).Some?
            ==> a == Refuse(FirstRejection(batch).value)
    ensures a.Refuse? && (a.why.FileTooBig? || a.why.ImageTooLarge?) ==>
              FirstRejection(if source == Drop then ImageFiles(files) else files) == Some(a.why)
  {
    var batch := if source == Drop then ImageFiles(files) else files;
    var remaining := MaxStaged - |staged|;
    if source == Drop && |batch| == 0 then Refuse(NoImageFiles)
    else if |batch| > remaining then Refuse(TooMany(remaining))
    else match FirstRejection(batch)
      case Some(why) => Refuse(why)
      case None => Upload(batch)
  }

  /** Appending a successful upload reply; `None` is a failed request or a
      reply without an `images` field, which leaves the list as it was. */
  function ApplyReply(staged: seq<StagedImage>, reply: Option<seq<UploadedFile>>): (r: seq<StagedImage>)
    ensures reply.None? ==> r == staged
    ensures reply.Some? ==> |r| == |staged| + |reply.value|
    ensures r[..|staged|] == staged
    ensures reply.Some? ==> forall k | 0 <= k < |reply.value| ::
              r[|staged| + k] == Uploaded(reply.value[k].url, reply.value[k].thumbnail)
  {
    match reply
    case None => staged
    case Some(images) =>
      staged + seq(|images|, k requires 0 <= k < |images| => Uploaded(images[k].url, images[k].thumbnail))
  }

  /** The result of one picker selection or drop. `sent` is the batch of
      the upload request, if one was made; `reply` is what the server
      answers to it and is ignored when nothing was sent. */
  datatype BatchResult = BatchResult(staged: seq<StagedImage>, sent: Option<seq<PickedFile>>, refused: Option<Rejection>)

  function HandleBatch(staged: seq<StagedImage>, files: seq<PickedFile>, source: Source,
                       reply: Option<seq<UploadedFile>>): (r: BatchResult)
    ensures r.refused.Some? <==> r.sent.None?
    ensures r.sent.Some? <==> Admit(staged, files, source).Upload?
    ensures r.sent.Some? ==> r.sent.value == Admit(staged, files, source).batch
    ensures r.refused.Some? ==> r.refused.value == Admit(staged, files, source).why
    ensures r.refused.Some? ==> r.staged == staged
    ensures r.sent.Some? ==> r.staged == ApplyReply(staged, reply)
    ensures r.sent.Some? && reply.Some? && |reply.value| <= |r.sent.value| && |staged| <= MaxStaged ==>
              |r.staged| <= MaxStaged
  {
    match Admit(staged, files, source)
    case Refuse(why) => BatchResult(staged, None, Some(why))
    case Upload(batch) => BatchResult(ApplyReply(staged, reply), Some(batch), None)
  }

  /** A full list refuses one more picked image without an upload, while a
      list one short of the cap accepts it. */
  lemma CapAdmitsFifteenthNotSixteenth(staged: seq<StagedImage>, f: PickedFile)
    requires Acceptable(f)
    ensures |staged| == 14 ==> Admit(staged, [f], Picker) == Upload([f])
    ensures |staged| == 15 ==> Admit(staged, [f], Picker) == Refuse(TooMany(0))
  {
  }

  /** The placeholder opens the file picker only below the cap. */
  predicate PickerOpens(staged: seq<StagedImage>) {
    |staged| < MaxStaged
  }

  /** The placeholder's guard agrees with the batch cap: when the picker
      stays shut no picked file could have been admitted, and when it
      opens a single acceptable file is admitted. */
  lemma PickerGuardMatchesCap(staged: seq<StagedImage>, f: PickedFile)
    ensures !PickerOpens(staged) ==> Admit(staged, [f], Picker) == Refuse(TooMany(MaxStaged - |staged|))
    ensures PickerOpens(staged) && Acceptable(f) ==> Admit(staged, [f], Picker) == Upload([f])
  {
  }

  /** `splice(index, 1)` start position: negative indices count from the
      end, and positions past the end remove nothing. */
  function SpliceStart(len: nat, index: int): (start: nat)
    ensures start <= len
    ensures 0 <= index < len ==> start == index
    ensures -(len as int) <= index < 0 ==> start == len + index
  {
    if index < 0 then Max(len + index, 0) else Min(index, len)
  }

  /** `removeImage(index)`: the list with `splice(index, 1)` applied. */
  function Remove<T>(s: seq<T>, index: int): (r: seq<T>)
    ensures 0 <= index < |s| ==> |r| == |s| - 1
    ensures 0 <= index < |s| ==> forall j | 0 <= j < index :: r[j] == s[j]
    ensures 0 <= index < |s| ==> forall j | index <= j < |r| :: r[j] == s[j + 1]
    ensures index >= |s| ==> r == s
    ensures index < |s| && |s| > 0 ==> |r| == |s| - 1
  {
    var start := SpliceStart(|s|, index);
    if start < |s| then s[..start] + s[start + 1..] else s
  }

  /** Removing an entry loses exactly that entry. */
  lemma RemoveKeepsTheRest<T>(s: seq<T>, i: nat)
    requires i < |s|
    ensures multiset(Remove(s, i)) + multiset{s[i]} == multiset(s)
  {
    assert s == s[..i] + [s[i]] + s[i + 1..];
    assert Remove(s, i) == s[..i] + s[i + 1..];
  }

  /** Removing the entry just added restores the list. */
  lemma RemoveUndoesAppend<T>(s: seq<T>, x: T)
    ensures Remove(s + [x], |s|) == s
  {
    assert (s + [x])[..|s|] == s;
  }

  /** The URL `submitPost` sends for an entry. */
  function Original(img: StagedImage): string {
    match img
    case Legacy(url) => url
    case Uploaded(original, _) => original
  }

  /** The image list of the create or update request: the same length and
      order as the staged list, with pairs reduced to their original. */
  function SentUrls(staged: seq<StagedImage>): (urls: seq<string>)
    ensures |urls| == |staged|
    ensures forall k | 0 <= k < |staged| ::
              urls[k] == (if staged[k].Legacy? then staged[k].url else staged[k].original)
  {
    seq(|staged|, k requires 0 <= k < |staged| => Original(staged[k]))
  }

  /** Opening the editor on an existing post stages its URLs as strings. */
  function LoadForEdit(urls: seq<string>): (staged: seq<StagedImage>)
    ensures |staged| == |urls|
    ensures forall k | 0 <= k < |urls| :: staged[k].Legacy?
  {
    seq(|urls|, k requires 0 <= k < |urls| => Legacy(urls[k]))
  }

  /** Saving an edited post without touching its images sends back the
      same image list. */
  lemma EditRoundTrip(urls: seq<string>)
    ensures SentUrls(LoadForEdit(urls)) == urls
  {
  }

  /** Freshly uploaded images are sent as the URLs the server returned,
      after the URLs staged before them. */
  lemma SentUrlsAfterUpload(staged: seq<StagedImage>, images: seq<UploadedFile>)
    ensures SentUrls(ApplyReply(staged, Some(images)))
         == SentUrls(staged) + seq(|images|, k requires 0 <= k < |images| => images[k].url)
  {
  }

  /** Removing entry `i` and then normalising is the same as normalising
      and then removing URL `i`. */
  lemma SentUrlsAfterRemove(staged: seq<StagedImage>, index: int)
    ensures SentUrls(Remove(staged, index)) == Remove(SentUrls(staged), index)
  {
    var start := SpliceStart(|staged|, index);
    if start < |staged| {
      var a := SentUrls(Remove(staged, index));
      var b := Remove(SentUrls(staged), index);
      assert Remove(staged, index) == staged[..start] + staged[start + 1..];
      assert b == SentUrls(staged)[..start] + SentUrls(staged)[start + 1..];
      forall k | 0 <= k < |a|
        ensures a[k] == b[k]
      {
        if k < start {
          assert a[k] == Original(staged[k]);
        } else {
          assert a[k] == Original(staged[k + 1]);
        }
      }
    }
  }
}
