/** Header fields of a transcript (learning_extractor.py, `extract_metadata`).
    Each field is the capture of one label-anchored pattern, passed in already
    matched; the video id is derived from the URL. */
module Metadata {
  import opened Wrappers
  import opened Text

  datatype Metadata = Metadata(
    url: Option<string>,
    videoId: Option<string>,
    duration: Option<string>,
    extractedDate: Option<string>)

  /** `url.split('v=')[-1].split('&')[0]`: the query value after the last `v=`,
      up to the next `&`. */
  function VideoId(url: string): (id: string)
    ensures !Contains(id, "v=") && !Contains(id, "&")
    ensures Contains(url, id)
  {
    var pieces := Split(url, "v=");
    var id := Split(pieces[|pieces| - 1], "&")[0];
    VideoIdIsPiece(url, pieces, id);
    id
  }

  lemma VideoIdIsPiece(url: string, pieces: seq<string>, id: string)
    requires pieces == Split(url, "v=")
    requires id == Split(pieces[|pieces| - 1], "&")[0]
    ensures !Contains(id, "v=") && !Contains(id, "&")
    ensures Contains(url, id)
  {
    var tail := pieces[|pieces| - 1];
    SplitPiecesAvoidSep(url, "v=");
    SplitPiecesAvoidSep(tail, "&");
    ContainsInLonger(id, tail, "v=");
    SplitLastPiece(url, "v=");
    ContainsStartOfSuffix(url, tail, id);
  }

  /** `a` is the position just past the last `v=` of `url`. */
  predicate AfterLastMarker(url: string, a: nat) {
    a >= 2 && OccursAt(url, "v=", a - 2) && a <= |url| && !Contains(url[a..], "v=")
  }

  /** `id` is the longest prefix of `t` without `&`: all of `t`, or followed by `&`. */
  predicate UpToAmpersand(t: string, id: string) {
    id <= t && !Contains(id, "&") && (id == t || t[|id|] == '&')
  }

  /** With at least one `v=` in the URL, the last piece of the split starts just past
      the last `v=`. */
  lemma LastMarkerPosition(url: string) returns (a: nat)
    requires |Split(url, "v=")| > 1
    ensures AfterLastMarker(url, a) && Contains(url, "v=")
    ensures url[a..] == Split(url, "v=")[|Split(url, "v=")| - 1]
  {
    var pieces := Split(url, "v=");
    var tail := pieces[|pieces| - 1];
    SplitLastPiece(url, "v=");
    SplitPiecesAvoidSep(url, "v=");
    a := |url| - |tail|;
    assert url[a..] == tail;
    assert OccursAt(url, "v=", a - 2);
    OccursContains(url, "v=", a - 2);
  }

  /** The video id is read from the text after the last `v=` (or from the whole URL
      when it has none), and runs up to the first `&` of that text. */
  lemma VideoIdAfterLastMarker(url: string)
    ensures !Contains(url, "v=") ==> UpToAmpersand(url, VideoId(url))
    ensures Contains(url, "v=") ==>
      exists a: nat :: AfterLastMarker(url, a) && UpToAmpersand(url[a..], VideoId(url))
  {
    var pieces := Split(url, "v=");
    var tail := pieces[|pieces| - 1];
    var id := Split(tail, "&")[0];
    assert VideoId(url) == id;
    assert UpToAmpersand(tail, id) by {
      SplitPiecesAvoidSep(tail, "&");
      SplitFirstPiece(tail, "&");
    }
    if |pieces| > 1 {
      var a := LastMarkerPosition(url);
      assert AfterLastMarker(url, a) && UpToAmpersand(url[a..], id);
    } else {
      assert tail == url && !Contains(url, "v=") by {
        SplitLastPiece(url, "v=");
        SplitPiecesAvoidSep(url, "v=");
      }
    }
  }

  /** `extract_metadata`: `url`, `duration` and `extracted_date` are the captures when
      their patterns matched; `video_id` is present exactly when the URL is, is the
      id `VideoId` reads from it, and is a marker-free piece of it. */
  function ExtractMetadata(urlMatch: Option<string>, durationMatch: Option<string>, dateMatch: Option<string>): (m: Metadata)
    ensures m.url == urlMatch && m.duration == durationMatch && m.extractedDate == dateMatch
    ensures m.videoId.Some? <==> m.url.Some?
    ensures urlMatch.Some? ==> m.videoId == Some(VideoId(urlMatch.value))
    ensures m.url.Some? ==>
      Contains(m.url.value, m.videoId.value) &&
      !Contains(m.videoId.value, "v=") && !Contains(m.videoId.value, "&")
  {
    var id := match urlMatch
      case Some(u) => Some(VideoId(u))
      case None => None;
    Metadata(urlMatch, id, durationMatch, dateMatch)
  }
}
