/** The attachment classifier: the first-match-wins chain of suffix tests that picks
    which send operation an attachment goes to. */
module Media {
  import opened Text
  import opened Paths

  /** The media kinds the messaging client has a send operation for. */
  datatype Kind = Photo | Video | Audio | Voice | Document

  const PhotoSuffixes: seq<string> := [".jpg", ".jpeg", ".png", ".gif", ".bmp", ".webp"]
  const VideoSuffixes: seq<string> := [".mp4", ".avi", ".mkv", ".mov", ".webm"]
  const AudioSuffixes: seq<string> := [".mp3", ".wav", ".ogg", ".m4a", ".flac"]
  const VoiceSuffixes: seq<string> := [".ogg", ".opus"]

  /** The chain of tests on an already lowercased suffix, in source order; the
      first list that holds the suffix decides, and nothing matched means document. */
  function KindOfSuffix(ext: string): Kind {
    if ext in PhotoSuffixes then Photo
    else if ext in VideoSuffixes then Video
    else if ext in AudioSuffixes then Audio
    else if ext in VoiceSuffixes then Voice
    else Document
  }

  /** The kind an attachment is sent as, decided by its lowercased suffix: the kind the
      table lists for it, or document. */
  function Classify(path: string): (k: Kind)
    ensures var ext := Lower(Suffix(path));
      k == if ext in KindTable then KindTable[ext] else Document
  {
    KindOfSuffixIsTable(Lower(Suffix(path)));
    KindOfSuffix(Lower(Suffix(path)))
  }

  /** The chain read as one table: every listed suffix with the kind it ends up as. */
  const KindTable: map<string, Kind> := map[
    ".jpg" := Photo, ".jpeg" := Photo, ".png" := Photo, ".gif" := Photo, ".bmp" := Photo, ".webp" := Photo,
    ".mp4" := Video, ".avi" := Video, ".mkv" := Video, ".mov" := Video, ".webm" := Video,
    ".mp3" := Audio, ".wav" := Audio, ".ogg" := Audio, ".m4a" := Audio, ".flac" := Audio,
    ".opus" := Voice
  ]

  /** The chain agrees with the table, with document for every suffix the table lacks. */
  lemma KindOfSuffixIsTable(ext: string)
    ensures KindOfSuffix(ext) == (if ext in KindTable then KindTable[ext] else Document)
  {
  }

  /** Each kind is chosen for exactly the suffixes of its list that no earlier list
      claims; only `.opus` reaches the voice branch, because `.ogg` is taken by audio. */
  lemma KindOfSuffixExact(ext: string)
    ensures KindOfSuffix(ext) == Photo <==> ext in PhotoSuffixes
    ensures KindOfSuffix(ext) == Video <==> ext in VideoSuffixes
    ensures KindOfSuffix(ext) == Audio <==> ext in AudioSuffixes
    ensures KindOfSuffix(ext) == Voice <==> ext == ".opus"
    ensures KindOfSuffix(ext) == Document <==>
      ext !in PhotoSuffixes && ext !in VideoSuffixes && ext !in AudioSuffixes && ext !in VoiceSuffixes
  {
  }

  /** A file named by a stem and a well-formed extension is classified by that
      extension alone, lowercased. */
  lemma ClassifyByExtension(stem: string, ext: string)
    requires stem != [] && stem[|stem| - 1] != '/'
    requires IsSuffixText(ext) && '/' !in ext
    ensures Classify(stem + ext) == KindOfSuffix(Lower(ext))
  {
    SuffixOfName(stem, ext);
  }

  /** A file whose extension is `.ogg` in any capitalisation is sent as audio, never
      as voice: the audio test comes first in the chain. */
  lemma OggIsAudio(stem: string, ext: string)
    requires stem != [] && stem[|stem| - 1] != '/'
    requires Lower(ext) == ".ogg"
    ensures Classify(stem + ext) == Audio
  {
    assert IsSuffixText(ext) && '/' !in ext by {
      LowerSuffixText(ext);
    }
    assert KindOfSuffix(Lower(ext)) == Audio;
    ClassifyByExtension(stem, ext);
  }

  /** A file whose extension is `.opus` in any capitalisation is sent as voice. */
  lemma OpusIsVoice(stem: string, ext: string)
    requires stem != [] && stem[|stem| - 1] != '/'
    requires Lower(ext) == ".opus"
    ensures Classify(stem + ext) == Voice
  {
    assert IsSuffixText(ext) && '/' !in ext by {
      LowerSuffixText(ext);
    }
    assert KindOfSuffix(Lower(ext)) == Voice;
    ClassifyByExtension(stem, ext);
  }

  /** A file with no extension, one whose final component has no `.` strictly inside
      it, is sent as a document. */
  lemma NoExtensionIsDocument(p: string)
    requires forall k :: 0 < k < |FinalComponent(p)| - 1 ==> FinalComponent(p)[k] != '.'
    ensures Classify(p) == Document
  {
  }

  /** Classification ignores case: paths that agree once lowercased get the same kind. */
  lemma ClassifyIgnoresCase(p: string, q: string)
    requires Lower(p) == Lower(q)
    ensures Classify(p) == Classify(q)
  {
    SuffixLower(p);
    SuffixLower(q);
  }
}
