/**
 * The backend's keyword-to-video matcher: the first key of the fixed mapping,
 * in insertion order, that occurs anywhere in the transcript picks the video;
 * with no such key the default video is served.
 */
module Backend {
  import opened Wrappers
  import opened PyStr

  /** `SIGN_VIDEO_MAPPING`, in its insertion order. */
  const SignVideoMapping: seq<(string, string)> := [
    ("hello", "hello.mp4"),
    ("thank", "thank_you.mp4"),
    ("yes", "yes.mp4"),
    ("no", "no.mp4")
  ]

  const VideoRoute: string := "/get_video/"
  const DefaultVideo: string := "default.mp4"

  /** The video of the first key, in order, that occurs in `text` as a substring. */
  function FirstMatch(mapping: seq<(string, string)>, text: string): (video: Option<string>)
  {
    if mapping == [] then None
    else if Contains(text, mapping[0].0) then Some(mapping[0].1)
    else FirstMatch(mapping[1..], text)
  }

  /** The key at index `i` is the first key that occurs in `text`. */
  predicate FirstMatchAt(mapping: seq<(string, string)>, text: string, i: int)
  {
    0 <= i < |mapping| && Contains(text, mapping[i].0)
    && forall j :: 0 <= j < i ==> !Contains(text, mapping[j].0)
  }

  /**
   * There is no match exactly when no key occurs in the text; otherwise the
   * match is the video of the first key that occurs.
   */
  lemma {:induction false} FirstMatchSpec(mapping: seq<(string, string)>, text: string)
    ensures FirstMatch(mapping, text).None? <==> forall i :: 0 <= i < |mapping| ==> !Contains(text, mapping[i].0)
    ensures FirstMatch(mapping, text).Some? ==>
      exists i :: FirstMatchAt(mapping, text, i) && FirstMatch(mapping, text).value == mapping[i].1
  {
    if mapping != [] {
      FirstMatchSpec(mapping[1..], text);
      forall i | 1 <= i < |mapping| ensures mapping[1..][i - 1] == mapping[i] { }
      if !Contains(text, mapping[0].0) && FirstMatch(mapping[1..], text).Some? {
        var i :| FirstMatchAt(mapping[1..], text, i) && FirstMatch(mapping[1..], text).value == mapping[1..][i].1;
        assert FirstMatchAt(mapping, text, i + 1) by {
          forall j | 0 <= j < i + 1 ensures !Contains(text, mapping[j].0) {
            if j > 0 { assert mapping[j] == mapping[1..][j - 1]; }
          }
        }
      }
    }
  }

  /** When the key at `i` is the first that occurs, its video is the match. */
  lemma {:induction false} FirstMatchWins(mapping: seq<(string, string)>, text: string, i: int)
    requires FirstMatchAt(mapping, text, i)
    ensures FirstMatch(mapping, text) == Some(mapping[i].1)
  {
    if i > 0 {
      assert FirstMatchAt(mapping[1..], text, i - 1) by {
        forall j | 0 <= j < i - 1 ensures !Contains(text, mapping[1..][j].0) {
          assert mapping[1..][j] == mapping[j + 1];
        }
      }
      FirstMatchWins(mapping[1..], text, i - 1);
    }
  }

  /** `map_text_to_asl_video`: the route of the first matching key's video, or of the default video. */
  function MapTextToAslVideo(text: string): (url: string)
    ensures StartsWith(url, VideoRoute)
    ensures url[|VideoRoute|..] == DefaultVideo
      || exists i :: 0 <= i < |SignVideoMapping| && url[|VideoRoute|..] == SignVideoMapping[i].1
  {
    FirstMatchSpec(SignVideoMapping, text);
    match FirstMatch(SignVideoMapping, text)
    case Some(video) => VideoRoute + video
    case None => VideoRoute + DefaultVideo
  }

  /** The default video is served exactly when no key occurs in the text. */
  lemma DefaultIffNoKey(text: string)
    ensures MapTextToAslVideo(text) == "/get_video/default.mp4" <==>
      forall i :: 0 <= i < |SignVideoMapping| ==> !Contains(text, SignVideoMapping[i].0)
  {
    FirstMatchSpec(SignVideoMapping, text);
    var url := MapTextToAslVideo(text);
    if FirstMatch(SignVideoMapping, text).Some? {
      var v := FirstMatch(SignVideoMapping, text).value;
      assert v in ["hello.mp4", "thank_you.mp4", "yes.mp4", "no.mp4"];
      assert url[|VideoRoute|..] == v;
    }
  }

  /** The first key in insertion order that occurs in the text decides the video. */
  lemma FirstKeyWins(text: string, i: int)
    requires FirstMatchAt(SignVideoMapping, text, i)
    ensures MapTextToAslVideo(text) == "/get_video/" + SignVideoMapping[i].1
  {
    FirstMatchWins(SignVideoMapping, text, i);
  }

  /** "hello" comes before "yes" in the mapping, so it wins when both occur. */
  lemma HelloBeatsYes()
    ensures MapTextToAslVideo("yes hello") == "/get_video/hello.mp4"
  {
    assert OccursAt("yes hello", "hello", 4);
    ContainsIff("yes hello", "hello");
    FirstKeyWins("yes hello", 0);
  }

  /** Matching is raw substring containment: "no" matches inside "know". */
  lemma NoMatchesInsideKnow()
    ensures MapTextToAslVideo("i know") == "/get_video/no.mp4"
  {
    NotContainsMissingChar("i know", "hello", 0);
    NotContainsMissingChar("i know", "thank", 0);
    NotContainsMissingChar("i know", "yes", 0);
    assert OccursAt("i know", "no", 3);
    ContainsIff("i know", "no");
    FirstKeyWins("i know", 3);
  }

  /** "thank" matches the start of "thanks". */
  lemma ThankMatchesThanks()
    ensures MapTextToAslVideo("thanks") == "/get_video/thank_you.mp4"
  {
    NotContainsMissingChar("thanks", "hello", 1);
    assert StartsWith("thanks", "thank");
    FirstKeyWins("thanks", 1);
  }

  /** Matching is case-sensitive: "Hello" matches no key. */
  lemma CaseSensitive()
    ensures MapTextToAslVideo("Hello") == "/get_video/default.mp4"
  {
    NotContainsMissingChar("Hello", "hello", 0);
    NotContainsMissingChar("Hello", "thank", 0);
    NotContainsMissingChar("Hello", "yes", 0);
    NotContainsMissingChar("Hello", "no", 0);
    DefaultIffNoKey("Hello");
  }
}
