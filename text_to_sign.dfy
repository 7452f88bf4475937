/**
 * The sentence-to-sign compiler: a sentence is sanitised and split into words,
 * each word is resolved to a sign asset under its capitalised name or else
 * spelled letter by letter, and the collected clips are concatenated and
 * rendered to one video.
 *
 * The asset directory is the set `files` of paths that exist. Media decoding
 * and rendering are foreign calls; a clip is a value naming what would have
 * been decoded, and the render is a request record.
 */
module TextToSign {
  import opened Wrappers
  import opened PyStr

  /** The extensions an asset may have. */
  const SupportedExtensions: set<string> := {".mp4", ".jpg", ".png", ".gif"}

  /** `duration=1.0` on create_clip, in milliseconds */
  const DefaultDurationMs: nat := 1000
  /** Display time of one spelled letter, 0.5 s */
  const LetterDurationMs: nat := 500
  const RenderFps: nat := 30
  const RenderCodec: string := "libx264"

  /** `order` lists every supported extension exactly once. */
  ghost predicate IsExtOrder(order: seq<string>)
  {
    multiset(order) == multiset{".mp4", ".jpg", ".png", ".gif"}
  }

  /**
   * An order in which the set of supported extensions can be iterated.
   * Python does not specify which one a given set object uses.
   */
  type ExtOrder = order: seq<string> | IsExtOrder(order)
    witness [".mp4", ".jpg", ".png", ".gif"]

  /** An extension order holds exactly the supported extensions. */
  lemma ExtOrderMembers(order: ExtOrder)
    ensures forall e :: e in order <==> e in SupportedExtensions
  {
    forall e
      ensures e in order <==> e in SupportedExtensions
    {
      assert e in order <==> e in multiset(order);
    }
  }

  /** What the compiler sees of its environment: the asset directory, the extension order, the existing files. */
  datatype Env = Env(signsDir: string, order: ExtOrder, files: set<string>)

  /** A decoded clip: a video with its own duration, a still image shown for a fixed time, or a concatenation. */
  datatype Clip =
    | Video(path: string)
    | Image(path: string, durationMs: nat)
    | Concat(parts: seq<Clip>)

  /** The `ValueError`s the compiler raises. */
  datatype Error =
    | LetterNotFound(letter: char)
    | NoValidClips

  /** The arguments of the final `write_videofile` call. */
  datatype RenderRequest = RenderRequest(outputPath: string, video: Clip, fps: nat, codec: string, audio: bool)

  /** What a successful compile does: the render, then the clips closed, in the order they are closed. */
  datatype Compiled = Compiled(render: RenderRequest, closed: seq<Clip>)

  /** The text of the raised `ValueError`. */
  function Message(e: Error): (m: string)
    ensures e.LetterNotFound? <==> StartsWith(m, "Letter not found: ")
    ensures e.LetterNotFound? ==> m[|m| - 1] == e.letter
  {
    match e
    case LetterNotFound(letter) => "Letter not found: " + [letter]
    case NoValidClips =>
      var m := "No valid clips were created";
      assert m[..18][0] == 'N';
      m
  }

  /** The path tried for `name` with extension `ext`. */
  function Candidate(signsDir: string, name: string, ext: string): (path: string)
  {
    PathJoin(signsDir, Capitalize(name) + ext)
  }

  /** The candidate for the first extension of `exts` whose file exists. */
  function FirstExisting(signsDir: string, exts: seq<string>, files: set<string>, name: string): (path: Option<string>)
  {
    if exts == [] then None
    else if Candidate(signsDir, name, exts[0]) in files then Some(Candidate(signsDir, name, exts[0]))
    else FirstExisting(signsDir, exts[1..], files, name)
  }

  /** The asset `find_file(name)` returns. */
  function Resolve(env: Env, name: string): (path: Option<string>)
  {
    FirstExisting(env.signsDir, env.order, env.files, name)
  }

  /** The first existing candidate wins; there is none exactly when no candidate exists. */
  lemma {:induction false} FirstExistingSpec(signsDir: string, exts: seq<string>, files: set<string>, name: string)
    ensures var r := FirstExisting(signsDir, exts, files, name);
      r.Some? ==>
        exists i :: 0 <= i < |exts| && r.value == Candidate(signsDir, name, exts[i]) && r.value in files
          && forall j :: 0 <= j < i ==> Candidate(signsDir, name, exts[j]) !in files
    ensures FirstExisting(signsDir, exts, files, name).None? <==>
      forall i :: 0 <= i < |exts| ==> Candidate(signsDir, name, exts[i]) !in files
  {
    if exts != [] {
      FirstExistingSpec(signsDir, exts[1..], files, name);
      var r := FirstExisting(signsDir, exts, files, name);
      if Candidate(signsDir, name, exts[0]) !in files && r.Some? {
        var i :| 0 <= i < |exts[1..]| && r.value == Candidate(signsDir, name, exts[1..][i]) && r.value in files
          && forall j :: 0 <= j < i ==> Candidate(signsDir, name, exts[1..][j]) !in files;
        assert r.value == Candidate(signsDir, name, exts[i + 1]);
      }
    }
  }

  /**
   * `find_file` returns the candidate of some supported extension whose file exists,
   * and returns nothing exactly when no supported extension has one.
   */
  lemma ResolveSpec(env: Env, name: string)
    ensures Resolve(env, name).Some? ==>
      exists ext :: ext in SupportedExtensions && Resolve(env, name).value == Candidate(env.signsDir, name, ext)
        && Resolve(env, name).value in env.files
    ensures Resolve(env, name).None? <==>
      forall ext :: ext in SupportedExtensions ==> Candidate(env.signsDir, name, ext) !in env.files
  {
    FirstExistingSpec(env.signsDir, env.order, env.files, name);
    ExtOrderMembers(env.order);
    if Resolve(env, name).None? {
      forall ext | ext in SupportedExtensions
        ensures Candidate(env.signsDir, name, ext) !in env.files
      {
        assert ext in env.order;
        var i :| 0 <= i < |env.order| && env.order[i] == ext;
      }
    }
  }

  /** `find_file` depends on the name only through its capitalisation. */
  lemma {:induction false} FirstExistingByCapitalize(signsDir: string, exts: seq<string>, files: set<string>, a: string, b: string)
    requires Capitalize(a) == Capitalize(b)
    ensures FirstExisting(signsDir, exts, files, a) == FirstExisting(signsDir, exts, files, b)
  {
    if exts != [] {
      FirstExistingByCapitalize(signsDir, exts[1..], files, a, b);
    }
  }

  /** Names that differ only in letter case ("HELLO", "hello", "hElLo") resolve to the same asset. */
  lemma ResolveIgnoresCase(env: Env, a: string, b: string)
    requires Lower(a) == Lower(b)
    ensures Resolve(env, a) == Resolve(env, b)
  {
    CapitalizeIgnoresCase(a, b);
    FirstExistingByCapitalize(env.signsDir, env.order, env.files, a, b);
  }

  lemma HelloResolvesAlike(env: Env)
    ensures Resolve(env, "HELLO") == Resolve(env, "hello") == Resolve(env, "hElLo")
    ensures Resolve(env, "hello").Some? ==>
      exists ext :: ext in SupportedExtensions && Resolve(env, "hello").value == PathJoin(env.signsDir, "Hello" + ext)
  {
    assert Lower("HELLO") == "hello" == Lower("hElLo");
    ResolveIgnoresCase(env, "HELLO", "hello");
    ResolveIgnoresCase(env, "hElLo", "hello");
    assert Capitalize("hello") == "Hello";
    ResolveSpec(env, "hello");
  }

  /** The candidate for "hello" under "signs/" is "signs/Hello" followed by the extension. */
  lemma HelloCandidate(ext: string)
    ensures Candidate("signs/", "hello", ext) == "signs/Hello" + ext
  {
    CapitalizeFirst("hello");
    assert Capitalize("hello") == "Hello";
    var file := "Hello" + ext;
    assert file[0] == 'H';
    assert "signs/"[5..] == "/";
    PathJoinUnderDir("signs/", file);
    assert "signs/" + file == "signs/Hello" + ext;
  }

  /** The assets of the order example: "Hello" both as a video and as an image. */
  const HelloBoth: set<string> := {"signs/Hello.mp4", "signs/Hello.jpg"}

  /** With ".mp4" tried first, "hello" is shown with its video. */
  lemma HelloVideoFirst()
    ensures Resolve(Env("signs/", [".mp4", ".jpg", ".png", ".gif"], HelloBoth), "hello") == Some("signs/Hello.mp4")
  {
    var order: ExtOrder := [".mp4", ".jpg", ".png", ".gif"];
    HelloCandidate(".mp4");
    assert "signs/Hello" + ".mp4" == "signs/Hello.mp4";
    FirstCandidateWins(Env("signs/", order, HelloBoth), "hello");
  }

  /** With ".jpg" tried first, "hello" is shown with its image. */
  lemma HelloImageFirst()
    ensures Resolve(Env("signs/", [".jpg", ".mp4", ".png", ".gif"], HelloBoth), "hello") == Some("signs/Hello.jpg")
  {
    var order: ExtOrder := [".jpg", ".mp4", ".png", ".gif"];
    HelloCandidate(".jpg");
    assert "signs/Hello" + ".jpg" == "signs/Hello.jpg";
    FirstCandidateWins(Env("signs/", order, HelloBoth), "hello");
  }

  /**
   * The extension order can change which file a word is shown with: with both
   * "Hello.mp4" and "Hello.jpg" present, the extension tried first wins.
   */
  lemma OrderChangesFile()
    ensures exists o1: ExtOrder, o2: ExtOrder ::
      Resolve(Env("signs/", o1, HelloBoth), "hello") != Resolve(Env("signs/", o2, HelloBoth), "hello")
  {
    HelloVideoFirst();
    HelloImageFirst();
    var o1: ExtOrder := [".mp4", ".jpg", ".png", ".gif"];
    var o2: ExtOrder := [".jpg", ".mp4", ".png", ".gif"];
    assert Resolve(Env("signs/", o1, HelloBoth), "hello") != Resolve(Env("signs/", o2, HelloBoth), "hello");
  }

  /** When the candidate for the first extension in the order exists, `find_file` returns it. */
  lemma FirstCandidateWins(env: Env, name: string)
    requires |env.order| > 0 && Candidate(env.signsDir, name, env.order[0]) in env.files
    ensures Resolve(env, name) == Some(Candidate(env.signsDir, name, env.order[0]))
  {
  }

  /** `create_clip`: a video clip exactly when the path ends in ".mp4", else an image shown for `durationMs`. */
  function CreateClip(filePath: string, durationMs: nat := DefaultDurationMs): (c: Clip)
    ensures c.Video? <==> EndsWith(filePath, ".mp4")
    ensures !c.Concat? && c.path == filePath
    ensures c.Image? ==> c.durationMs == durationMs
  {
    if EndsWith(filePath, ".mp4") then Video(filePath) else Image(filePath, durationMs)
  }

  /** The candidate path ends with the extension it was built from. */
  lemma CandidateExtension(signsDir: string, name: string, ext: string)
    ensures var p := Candidate(signsDir, name, ext);
      |ext| <= |p| && p[|p| - |ext|..] == ext
  {
    PathJoinEnds(signsDir, Capitalize(name) + ext);
    EndsWithTail(Candidate(signsDir, name, ext), Capitalize(name), ext);
  }

  /** A candidate of a supported extension opens as a video exactly for ".mp4". */
  lemma CandidateClipKind(signsDir: string, name: string, ext: string, durationMs: nat)
    requires ext in SupportedExtensions
    ensures CreateClip(Candidate(signsDir, name, ext), durationMs).Video? <==> ext == ".mp4"
  {
    CandidateExtension(signsDir, name, ext);
    assert |ext| == 4;
  }

  /** A resolved asset becomes a video clip exactly when the ".mp4" candidate was the one found. */
  lemma ResolvedClipKind(env: Env, name: string, durationMs: nat)
    requires Resolve(env, name).Some?
    ensures var p := Resolve(env, name).value;
      CreateClip(p, durationMs).Video? <==> p == Candidate(env.signsDir, name, ".mp4")
  {
    ResolveSpec(env, name);
    var p := Resolve(env, name).value;
    var ext :| ext in SupportedExtensions && p == Candidate(env.signsDir, name, ext);
    CandidateClipKind(env.signsDir, name, ext, durationMs);
    if p == Candidate(env.signsDir, name, ".mp4") {
      CandidateClipKind(env.signsDir, name, ".mp4", durationMs);
    }
  }

  /** Put `prefix` in front of a successful clip list; an error passes through unchanged. */
  function PrefixWith(prefix: seq<Clip>, r: Result<seq<Clip>, Error>): (prefixed: Result<seq<Clip>, Error>)
  {
    match r
    case Ok(clips) => Ok(prefix + clips)
    case Err(e) => Err(e)
  }

  lemma PrefixWithEmpty(r: Result<seq<Clip>, Error>)
    ensures PrefixWith([], r) == r
  {
    if r.Ok? {
      assert [] + r.value == r.value;
    }
  }

  lemma PrefixWithNothing(x: seq<Clip>, r: Result<seq<Clip>, Error>)
    ensures PrefixWith(x, r) == Ok([]) <==> x == [] && r == Ok([])
  {
    if r.Ok? && x == [] {
      assert x + r.value == r.value;
    }
  }

  lemma PrefixWithAssoc(a: seq<Clip>, b: seq<Clip>, r: Result<seq<Clip>, Error>)
    ensures PrefixWith(a, PrefixWith(b, r)) == PrefixWith(a + b, r)
  {
    if r.Ok? {
      assert a + (b + r.value) == (a + b) + r.value;
    }
  }

  /** The alphabetic characters of `word`, in order. */
  function Letters(word: string): (letters: string)
  {
    Filter(word, IsAlpha)
  }

  /** The letter clips `spell_word` collects, or the error it raises at the first letter without an asset. */
  function LetterClips(env: Env, word: string): (r: Result<seq<Clip>, Error>)
    decreases |word|
  {
    if word == [] then Ok([])
    else if !IsAlpha(word[0]) then LetterClips(env, word[1..])
    else
      match Resolve(env, [word[0]])
      case None => Err(LetterNotFound(word[0]))
      case Some(p) => PrefixWith([CreateClip(p, LetterDurationMs)], LetterClips(env, word[1..]))
  }

  /** What `spell_word(word)` returns: nothing for a word without letters, else the concatenated letters. */
  function Spell(env: Env, word: string): (r: Result<Option<Clip>, Error>)
  {
    match LetterClips(env, word)
    case Err(e) => Err(e)
    case Ok(clips) => Ok(if clips == [] then None else Some(Concat(clips)))
  }

  /** Spelling succeeds with one 0.5 s clip per letter, in order, each the letter's own asset. */
  lemma {:induction false} LetterClipsOk(env: Env, word: string)
    requires LetterClips(env, word).Ok?
    ensures var clips := LetterClips(env, word).value;
      && |clips| == |Letters(word)|
      && forall k :: 0 <= k < |clips| ==>
           Resolve(env, [Letters(word)[k]]).Some?
           && clips[k] == CreateClip(Resolve(env, [Letters(word)[k]]).value, LetterDurationMs)
    decreases |word|
  {
    if word != [] {
      LetterClipsOk(env, word[1..]);
      var rest := LetterClips(env, word[1..]).value;
      var letters := Letters(word[1..]);
      if IsAlpha(word[0]) {
        assert Letters(word) == [word[0]] + letters;
        var p := Resolve(env, [word[0]]).value;
        var clips := [CreateClip(p, LetterDurationMs)] + rest;
        assert LetterClips(env, word).value == clips;
        forall k | 1 <= k < |clips|
          ensures clips[k] == rest[k - 1] && Letters(word)[k] == letters[k - 1]
        {
        }
      } else {
        assert Letters(word) == letters;
      }
    }
  }

  /** `word` has a letter at index `k` for which no asset exists. */
  predicate MissingLetterAt(env: Env, word: string, k: int)
  {
    0 <= k < |word| && IsAlpha(word[k]) && Resolve(env, [word[k]]).None?
  }

  /**
   * Spelling fails exactly when some letter has no asset, and then it raises
   * for the first such letter: no partial spelling is returned.
   */
  lemma {:induction false} LetterClipsErr(env: Env, word: string)
    ensures LetterClips(env, word).Err? <==> exists k :: MissingLetterAt(env, word, k)
    ensures LetterClips(env, word).Err? ==>
      exists k :: MissingLetterAt(env, word, k)
        && LetterClips(env, word).error == LetterNotFound(word[k])
        && forall j :: 0 <= j < k ==> !MissingLetterAt(env, word, j)
    decreases |word|
  {
    if word != [] {
      LetterClipsErr(env, word[1..]);
      forall j | 0 <= j < |word| - 1
        ensures MissingLetterAt(env, word, j + 1) == MissingLetterAt(env, word[1..], j)
      {
        assert word[1..][j] == word[j + 1];
      }
      if MissingLetterAt(env, word, 0) {
      } else if LetterClips(env, word[1..]).Err? {
        var k :| MissingLetterAt(env, word[1..], k)
          && LetterClips(env, word[1..]).error == LetterNotFound(word[1..][k])
          && forall j :: 0 <= j < k ==> !MissingLetterAt(env, word[1..], j);
        assert MissingLetterAt(env, word, k + 1);
        forall j | 0 <= j < k + 1 ensures !MissingLetterAt(env, word, j) {
          if j > 0 { assert !MissingLetterAt(env, word[1..], j - 1); }
        }
      } else {
        forall k | 0 <= k < |word| ensures !MissingLetterAt(env, word, k) {
          if k > 0 { assert !MissingLetterAt(env, word[1..], k - 1); }
        }
      }
    }
  }

  /** A word with no letters (all digits, say) spells to nothing, without an error. */
  lemma {:induction false} SpellNoLetters(env: Env, word: string)
    requires Letters(word) == []
    ensures Spell(env, word) == Ok(None)
    decreases |word|
  {
    if word != [] {
      assert !IsAlpha(word[0]);
      SpellNoLetters(env, word[1..]);
    }
  }

  /**
   * `spell_word` fails exactly when a letter has no asset, returns `None`
   * exactly when the word has no letters, and otherwise returns the
   * concatenation of one 0.5 s clip per letter in character order.
   */
  lemma SpellSpec(env: Env, word: string)
    ensures Spell(env, word).Err? <==> exists k :: MissingLetterAt(env, word, k)
    ensures Spell(env, word) == Ok(None) <==> Letters(word) == []
    ensures Spell(env, word).Ok? && Spell(env, word).value.Some? ==>
      var c := Spell(env, word).value.value;
      && c.Concat? && |c.parts| == |Letters(word)|
      && forall k :: 0 <= k < |c.parts| ==>
           Resolve(env, [Letters(word)[k]]).Some?
           && c.parts[k] == CreateClip(Resolve(env, [Letters(word)[k]]).value, LetterDurationMs)
  {
    LetterClipsErr(env, word);
    if Letters(word) == [] {
      SpellNoLetters(env, word);
    }
    if LetterClips(env, word).Ok? {
      LetterClipsOk(env, word);
    }
  }

  /** The clip a word contributes, as `compile_sentence` obtains it: its own asset, else its spelling. */
  function WordClip(env: Env, word: string): (r: Result<Option<Clip>, Error>)
  {
    match Resolve(env, word)
    case Some(p) => Ok(Some(CreateClip(p)))
    case None => Spell(env, word)
  }

  /** A word is dropped, without error, exactly when it has no asset and no letters. */
  lemma WordDropped(env: Env, word: string)
    ensures WordClip(env, word) == Ok(None) <==> Resolve(env, word).None? && Letters(word) == []
  {
    if Resolve(env, word).None? {
      if Letters(word) == [] {
        SpellNoLetters(env, word);
      } else if LetterClips(env, word).Ok? {
        LetterClipsOk(env, word);
      }
    }
  }

  function OptionToSeq(c: Option<Clip>): (clips: seq<Clip>)
  {
    if c.Some? then [c.value] else []
  }

  /**
   * The loop of `compile_sentence` over the words' results: append each clip
   * that exists, skip the ones that are `None`, stop at the first error.
   */
  function Collect(results: seq<Result<Option<Clip>, Error>>): (r: Result<seq<Clip>, Error>)
  {
    if results == [] then Ok([])
    else
      match results[0]
      case Err(e) => Err(e)
      case Ok(c) => PrefixWith(OptionToSeq(c), Collect(results[1..]))
  }

  /** The result of each word, in order. */
  function WordClips(env: Env, words: seq<string>): (rs: seq<Result<Option<Clip>, Error>>)
  {
    MapSeq(w => WordClip(env, w), words)
  }

  /** The list `clips` that the loop of `compile_sentence` builds, or the error it lets escape. */
  function SentenceClips(env: Env, words: seq<string>): (r: Result<seq<Clip>, Error>)
  {
    Collect(WordClips(env, words))
  }

  /** Combine the results of two consecutive runs of words. */
  function Then(a: Result<seq<Clip>, Error>, b: Result<seq<Clip>, Error>): (r: Result<seq<Clip>, Error>)
  {
    match a
    case Err(e) => Err(e)
    case Ok(clips) => PrefixWith(clips, b)
  }

  lemma ThenPrefix(x: seq<Clip>, r: Result<seq<Clip>, Error>, t: Result<seq<Clip>, Error>)
    ensures Then(PrefixWith(x, r), t) == PrefixWith(x, Then(r, t))
  {
    if r.Ok? {
      PrefixWithAssoc(x, r.value, t);
    }
  }

  lemma {:induction false} CollectAppend(a: seq<Result<Option<Clip>, Error>>, b: seq<Result<Option<Clip>, Error>>)
    ensures Collect(a + b) == Then(Collect(a), Collect(b))
  {
    if a == [] {
      assert a + b == b;
      PrefixWithEmpty(Collect(b));
    } else {
      assert (a + b)[0] == a[0];
      assert (a + b)[1..] == a[1..] + b;
      CollectAppend(a[1..], b);
      if a[0].Ok? {
        ThenPrefix(OptionToSeq(a[0].value), Collect(a[1..]), Collect(b));
      }
    }
  }

  /** Collecting fails exactly when some result is an error, and then with the first error. */
  lemma {:induction false} CollectErr(rs: seq<Result<Option<Clip>, Error>>)
    ensures Collect(rs).Err? <==> exists k :: 0 <= k < |rs| && rs[k].Err?
    ensures Collect(rs).Err? ==>
      exists k :: 0 <= k < |rs| && rs[k] == Err(Collect(rs).error) && forall j :: 0 <= j < k ==> rs[j].Ok?
  {
    if rs != [] {
      CollectErr(rs[1..]);
      if rs[0].Ok? {
        forall k | 1 <= k < |rs| ensures rs[k] == rs[1..][k - 1] { }
        if Collect(rs[1..]).Err? {
          var k :| 0 <= k < |rs[1..]| && rs[1..][k] == Err(Collect(rs[1..]).error)
            && forall j :: 0 <= j < k ==> rs[1..][j].Ok?;
          assert rs[k + 1] == Err(Collect(rs).error);
          forall j | 0 <= j < k + 1 ensures rs[j].Ok? {
            if j > 0 { assert rs[j] == rs[1..][j - 1]; }
          }
        }
      }
    }
  }

  /** Collecting yields no clip and no error exactly when every result is `None`. */
  lemma {:induction false} CollectNothing(rs: seq<Result<Option<Clip>, Error>>)
    ensures Collect(rs) == Ok([]) <==> forall k :: 0 <= k < |rs| ==> rs[k] == Ok(None)
  {
    if rs != [] {
      CollectNothing(rs[1..]);
      forall k | 1 <= k < |rs| ensures rs[k] == rs[1..][k - 1] { }
      if rs[0].Ok? {
        PrefixWithNothing(OptionToSeq(rs[0].value), Collect(rs[1..]));
      }
    }
  }

  /** When every result is a clip, all of them are collected, in order. */
  lemma {:induction false} CollectAll(rs: seq<Result<Option<Clip>, Error>>)
    requires forall k :: 0 <= k < |rs| ==> rs[k].Ok? && rs[k].value.Some?
    ensures Collect(rs).Ok? && |Collect(rs).value| == |rs|
    ensures forall k :: 0 <= k < |rs| ==> Collect(rs).value[k] == rs[k].value.value
  {
    if rs != [] {
      assert rs[0].Ok? && rs[0].value.Some?;
      forall k | 1 <= k < |rs| ensures rs[k] == rs[1..][k - 1] { }
      CollectAll(rs[1..]);
    }
  }

  /** Results that fail, drop or keep alike collect to results that fail alike and keep as many clips. */
  lemma {:induction false} CollectAlike(r1: seq<Result<Option<Clip>, Error>>, r2: seq<Result<Option<Clip>, Error>>)
    requires |r1| == |r2|
    requires forall k :: 0 <= k < |r1| ==>
      && r1[k].Err? == r2[k].Err?
      && (r1[k].Err? ==> r1[k].error == r2[k].error)
      && (r1[k].Ok? ==> r1[k].value.Some? == r2[k].value.Some?)
    ensures Collect(r1).Err? == Collect(r2).Err?
    ensures Collect(r1).Err? ==> Collect(r1).error == Collect(r2).error
    ensures Collect(r1).Ok? ==> |Collect(r1).value| == |Collect(r2).value|
  {
    if r1 != [] {
      assert r1[0].Err? == r2[0].Err?;
      forall k | 0 <= k < |r1| - 1 ensures r1[1..][k] == r1[k + 1] && r2[1..][k] == r2[k + 1] { }
      CollectAlike(r1[1..], r2[1..]);
    }
  }

  /** Every error the compile loop can raise is a missing letter. */
  lemma {:induction false} LetterClipsErrIsLetter(env: Env, word: string)
    ensures LetterClips(env, word).Err? ==> LetterClips(env, word).error.LetterNotFound?
    decreases |word|
  {
    if word != [] {
      LetterClipsErrIsLetter(env, word[1..]);
    }
  }

  /** One step of the loop: the clips of `words[i..]` are those of `words[i]` followed by those of the rest. */
  lemma SentenceClipsStep(env: Env, words: seq<string>, i: nat)
    requires i < |words|
    ensures SentenceClips(env, words[i..]) ==
      match WordClip(env, words[i])
      case Err(e) => Err(e)
      case Ok(c) => PrefixWith(OptionToSeq(c), SentenceClips(env, words[i + 1..]))
  {
    MapSeqDrop(w => WordClip(env, w), words, i);
  }

  lemma WordClipsAppend(env: Env, a: seq<string>, b: seq<string>)
    ensures WordClips(env, a + b) == WordClips(env, a) + WordClips(env, b)
  {
    MapSeqAppend(w => WordClip(env, w), a, b);
  }

  /**
   * The clips of a sentence are the clips of its first words followed by the
   * clips of the rest: no reordering, no deduplication, and the first error wins.
   */
  lemma SentenceClipsAppend(env: Env, a: seq<string>, b: seq<string>)
    ensures SentenceClips(env, a + b) == Then(SentenceClips(env, a), SentenceClips(env, b))
  {
    WordClipsAppend(env, a, b);
    CollectAppend(WordClips(env, a), WordClips(env, b));
  }

  /** A word that yields nothing leaves the clips of the rest of the sentence as they were. */
  lemma DroppedWordContributesNothing(env: Env, before: seq<string>, word: string, after: seq<string>)
    requires Resolve(env, word).None? && Letters(word) == []
    ensures SentenceClips(env, before + [word] + after) == SentenceClips(env, before + after)
  {
    WordDropped(env, word);
    SentenceClipsAppend(env, before + [word], after);
    SentenceClipsAppend(env, before, [word]);
    SentenceClipsAppend(env, before, after);
    assert SentenceClips(env, [word]) == Ok([]) by {
      CollectNothing(WordClips(env, [word]));
    }
    match SentenceClips(env, before)
    case Err(_) =>
    case Ok(cs) => assert cs + [] == cs;
  }

  /** When every word has its own asset, there is one 1.0 s clip per word, in word order. */
  lemma SentenceClipsAllDirect(env: Env, words: seq<string>)
    requires forall k :: 0 <= k < |words| ==> Resolve(env, words[k]).Some?
    ensures SentenceClips(env, words).Ok?
    ensures |SentenceClips(env, words).value| == |words|
    ensures forall k :: 0 <= k < |words| ==>
      SentenceClips(env, words).value[k] == CreateClip(Resolve(env, words[k]).value, DefaultDurationMs)
  {
    CollectAll(WordClips(env, words));
  }

  /**
   * The loop aborts exactly when some word has no asset and cannot be spelled,
   * and then it raises the error of the first such word.
   */
  lemma SentenceClipsErr(env: Env, words: seq<string>)
    ensures SentenceClips(env, words).Err? <==> exists k :: 0 <= k < |words| && WordClip(env, words[k]).Err?
    ensures SentenceClips(env, words).Err? ==>
      exists k :: 0 <= k < |words| && WordClip(env, words[k]) == Err(SentenceClips(env, words).error)
        && forall j :: 0 <= j < k ==> WordClip(env, words[j]).Ok?
  {
    var rs := WordClips(env, words);
    CollectErr(rs);
    assert SentenceClips(env, words) == Collect(rs);
    if exists k :: 0 <= k < |words| && WordClip(env, words[k]).Err? {
      var k :| 0 <= k < |words| && WordClip(env, words[k]).Err?;
      assert rs[k].Err?;
    }
    if Collect(rs).Err? {
      var k :| 0 <= k < |rs| && rs[k] == Err(Collect(rs).error) && forall j :: 0 <= j < k ==> rs[j].Ok?;
      assert WordClip(env, words[k]) == Err(SentenceClips(env, words).error);
      assert forall j :: 0 <= j < k ==> WordClip(env, words[j]).Ok? by {
        forall j | 0 <= j < k ensures WordClip(env, words[j]).Ok? {
          assert rs[j].Ok?;
        }
      }
    }
  }

  /** The characters kept by the sanitising generator expression. */
  predicate IsAlnumOrSpace(c: char) { IsAlnum(c) || IsSpace(c) }

  /** The sentence with every character that is neither alphanumeric nor whitespace deleted. */
  function Sanitize(sentence: string): (kept: string)
  {
    Filter(sentence, IsAlnumOrSpace)
  }

  /** The words `compile_sentence` iterates over. */
  function Tokens(sentence: string): (words: seq<string>)
  {
    Split(Sanitize(sentence))
  }

  /** Every token is non-empty and wholly alphanumeric. */
  lemma TokensAlnum(sentence: string)
    ensures forall t :: t in Tokens(sentence) ==> t != [] && forall i :: 0 <= i < |t| ==> IsAlnum(t[i])
  {
    SplitWords(Sanitize(sentence));
  }

  lemma {:induction false} SanitizeWithoutSpaces(s: string)
    ensures Filter(Sanitize(s), NotSpace) == Filter(s, IsAlnum)
  {
    if s != [] {
      SanitizeWithoutSpaces(s[1..]);
      var head := if IsAlnumOrSpace(s[0]) then [s[0]] else [];
      FilterAppend(head, Sanitize(s[1..]), NotSpace);
    }
  }

  /**
   * The tokens, joined together, are exactly the alphanumeric characters of the
   * sentence in their original order.
   */
  lemma TokensInOrder(sentence: string)
    ensures Flatten(Tokens(sentence)) == Filter(sentence, IsAlnum)
  {
    SplitFlatten(Sanitize(sentence));
    SanitizeWithoutSpaces(sentence);
  }

  /** "don't" becomes the single token "dont". */
  lemma TokensOfDont()
    ensures Tokens("don't") == ["dont"]
  {
    assert Sanitize("don't") == "dont";
    SplitJoinWords(["dont"]);
  }

  /** What `compile_sentence(sentence, outputPath)` does, or the error it raises. */
  function Compile(env: Env, sentence: string, outputPath: string): (r: Result<Compiled, Error>)
  {
    match SentenceClips(env, Tokens(sentence))
    case Err(e) => Err(e)
    case Ok(clips) =>
      if clips == [] then Err(NoValidClips)
      else
        var finalVideo := Concat(clips);
        Ok(Compiled(RenderRequest(outputPath, finalVideo, RenderFps, RenderCodec, false), [finalVideo] + clips))
  }

  /**
   * A successful compile renders the concatenation of the collected clips to
   * `outputPath` at 30 fps with libx264 and no audio, then closes the final
   * video and every collected clip.
   */
  lemma CompileRender(env: Env, sentence: string, outputPath: string)
    requires Compile(env, sentence, outputPath).Ok?
    ensures var c := Compile(env, sentence, outputPath).value;
      && SentenceClips(env, Tokens(sentence)).Ok?
      && c.render == RenderRequest(outputPath, Concat(SentenceClips(env, Tokens(sentence)).value), 30, "libx264", false)
      && c.render.video.parts != []
      && c.closed[0] == c.render.video
      && c.closed[1..] == c.render.video.parts
  {
  }

  /** Every error a word can raise is a missing letter. */
  lemma WordClipErrIsLetter(env: Env, word: string)
    ensures WordClip(env, word).Err? ==> WordClip(env, word).error.LetterNotFound?
  {
    LetterClipsErrIsLetter(env, word);
  }

  /** Every error the loop can raise is a missing letter. */
  lemma SentenceClipsErrIsLetter(env: Env, words: seq<string>)
    ensures SentenceClips(env, words).Err? ==> SentenceClips(env, words).error.LetterNotFound?
  {
    SentenceClipsErr(env, words);
    if SentenceClips(env, words).Err? {
      var k :| 0 <= k < |words| && WordClip(env, words[k]) == Err(SentenceClips(env, words).error);
      WordClipErrIsLetter(env, words[k]);
    }
  }

  /** A compile fails with "No valid clips were created" exactly when every token is dropped. */
  lemma CompileNoValidClips(env: Env, sentence: string, outputPath: string)
    ensures Compile(env, sentence, outputPath) == Err(NoValidClips) <==>
      forall k :: 0 <= k < |Tokens(sentence)| ==> WordClip(env, Tokens(sentence)[k]) == Ok(None)
  {
    SentenceClipsNothing(env, Tokens(sentence));
    SentenceClipsErrIsLetter(env, Tokens(sentence));
  }

  /** The loop collects nothing, without error, exactly when every word yields `None`. */
  lemma SentenceClipsNothing(env: Env, words: seq<string>)
    ensures SentenceClips(env, words) == Ok([]) <==> forall k :: 0 <= k < |words| ==> WordClip(env, words[k]) == Ok(None)
  {
    var rs := WordClips(env, words);
    CollectNothing(rs);
    assert SentenceClips(env, words) == Collect(rs);
    if forall k :: 0 <= k < |words| ==> WordClip(env, words[k]) == Ok(None) {
      forall k | 0 <= k < |rs| ensures rs[k] == Ok(None) {
        assert WordClip(env, words[k]) == Ok(None);
      }
    }
    if forall k :: 0 <= k < |rs| ==> rs[k] == Ok(None) {
      forall k | 0 <= k < |words| ensures WordClip(env, words[k]) == Ok(None) {
        assert rs[k] == Ok(None);
      }
    }
  }

  /** The empty sentence and a sentence of punctuation compile to the NoValidClips error. */
  lemma CompileNothing(env: Env, outputPath: string)
    ensures Compile(env, "", outputPath) == Err(NoValidClips)
    ensures Compile(env, "!!!", outputPath) == Err(NoValidClips)
  {
    assert Sanitize("!!!") == "";
  }

  /** The space-joined list of non-empty alphanumeric words is left alone by sanitising. */
  lemma {:induction false} SanitizeJoinWords(ws: seq<string>)
    requires forall j :: 0 <= j < |ws| ==> forall i :: 0 <= i < |ws[j]| ==> IsAlnum(ws[j][i])
    ensures Sanitize(JoinWords(ws)) == JoinWords(ws)
  {
    if ws != [] {
      FilterKeepsAll(ws[0], IsAlnumOrSpace);
      if |ws| > 1 {
        SanitizeJoinWords(ws[1..]);
        FilterAppend(ws[0], " ", IsAlnumOrSpace);
        FilterAppend(ws[0] + " ", JoinWords(ws[1..]), IsAlnumOrSpace);
        assert Filter(" ", IsAlnumOrSpace) == " ";
      }
    }
  }

  /** Tokenising undoes joining non-empty alphanumeric words with spaces. */
  lemma TokensOfJoinWords(ws: seq<string>)
    requires forall j :: 0 <= j < |ws| ==> ws[j] != [] && forall i :: 0 <= i < |ws[j]| ==> IsAlnum(ws[j][i])
    ensures Tokens(JoinWords(ws)) == ws
  {
    SanitizeJoinWords(ws);
    SplitJoinWords(ws);
  }

  lemma JoinLettersAndDigits()
    ensures JoinWords(["a1", "b2"]) == "a1 b2"
  {
    var ws := ["a1", "b2"];
    assert ws[1..] == ["b2"];
  }

  /** A two-character word of a letter and a digit with no asset is spelled from its letter alone. */
  lemma SpellLetterDigit(env: Env, word: string)
    requires |word| == 2 && IsAlpha(word[0]) && IsDigit(word[1])
    requires Resolve(env, word).None? && Resolve(env, [word[0]]).Some?
    ensures WordClip(env, word) == Ok(Some(Concat([CreateClip(Resolve(env, [word[0]]).value, LetterDurationMs)])))
  {
    var rest := word[1..];
    assert rest[1..] == [];
    assert LetterClips(env, rest) == Ok([]);
    assert [CreateClip(Resolve(env, [word[0]]).value, LetterDurationMs)] + [] == [CreateClip(Resolve(env, [word[0]]).value, LetterDurationMs)];
  }

  lemma SentenceClipsLettersAndDigits(env: Env)
    requires Resolve(env, "a1").None? && Resolve(env, "b2").None?
    requires Resolve(env, "a").Some? && Resolve(env, "b").Some?
    ensures SentenceClips(env, ["a1", "b2"]) == Ok([
      Concat([CreateClip(Resolve(env, "a").value, LetterDurationMs)]),
      Concat([CreateClip(Resolve(env, "b").value, LetterDurationMs)])
    ])
  {
    assert ['a'] == "a" && ['b'] == "b";
    SpellLetterDigit(env, "a1");
    SpellLetterDigit(env, "b2");
    var rs := WordClips(env, ["a1", "b2"]);
    assert rs[0] == WordClip(env, "a1") && rs[1] == WordClip(env, "b2");
    CollectAll(rs);
    assert Collect(rs).value == [rs[0].value.value, rs[1].value.value];
  }

  /**
   * "a1 b2" where neither word has an asset but the letters a and b do:
   * each word is spelled from its one letter, the digits add nothing.
   */
  lemma CompileLettersAndDigits(env: Env, outputPath: string)
    requires Resolve(env, "a1").None? && Resolve(env, "b2").None?
    requires Resolve(env, "a").Some? && Resolve(env, "b").Some?
    ensures Compile(env, "a1 b2", outputPath).Ok?
    ensures Compile(env, "a1 b2", outputPath).value.render.video.parts == [
      Concat([CreateClip(Resolve(env, "a").value, LetterDurationMs)]),
      Concat([CreateClip(Resolve(env, "b").value, LetterDurationMs)])
    ]
  {
    var words := ["a1", "b2"];
    JoinLettersAndDigits();
    TokensOfJoinWords(words);
    assert Tokens("a1 b2") == words;
    var clips := [
      Concat([CreateClip(Resolve(env, "a").value, LetterDurationMs)]),
      Concat([CreateClip(Resolve(env, "b").value, LetterDurationMs)])
    ];
    SentenceClipsLettersAndDigits(env);
  }

  /**
   * One unspellable word (no asset of its own, a letter without an asset)
   * aborts the whole compile with a LetterNotFound error, whatever the other words are.
   */
  lemma UnspellableWordAborts(env: Env, sentence: string, outputPath: string, k: nat, i: nat)
    requires k < |Tokens(sentence)| && Resolve(env, Tokens(sentence)[k]).None?
    requires MissingLetterAt(env, Tokens(sentence)[k], i)
    ensures Compile(env, sentence, outputPath).Err?
    ensures Compile(env, sentence, outputPath).error.LetterNotFound?
  {
    var words := Tokens(sentence);
    LetterClipsErr(env, words[k]);
    assert WordClip(env, words[k]).Err?;
    SentenceClipsErr(env, words);
    SentenceClipsErrIsLetter(env, words);
  }

  /** The letter clips fail or succeed alike whatever order the extensions are tried in. */
  lemma {:induction false} LetterClipsOrderFree(e1: Env, e2: Env, word: string)
    requires e1.signsDir == e2.signsDir && e1.files == e2.files
    ensures LetterClips(e1, word).Err? == LetterClips(e2, word).Err?
    ensures LetterClips(e1, word).Err? ==> LetterClips(e1, word).error == LetterClips(e2, word).error
    ensures LetterClips(e1, word).Ok? ==> |LetterClips(e1, word).value| == |LetterClips(e2, word).value|
    decreases |word|
  {
    if word != [] {
      LetterClipsOrderFree(e1, e2, word[1..]);
      ResolveSpec(e1, [word[0]]);
      ResolveSpec(e2, [word[0]]);
    }
  }

  /** Whether a word is kept, dropped or fails does not depend on the extension order. */
  lemma WordClipOrderFree(e1: Env, e2: Env, word: string)
    requires e1.signsDir == e2.signsDir && e1.files == e2.files
    ensures WordClip(e1, word).Err? == WordClip(e2, word).Err?
    ensures WordClip(e1, word).Err? ==> WordClip(e1, word).error == WordClip(e2, word).error
    ensures WordClip(e1, word).Ok? ==> WordClip(e1, word).value.Some? == WordClip(e2, word).value.Some?
  {
    ResolveSpec(e1, word);
    ResolveSpec(e2, word);
    LetterClipsOrderFree(e1, e2, word);
  }

  lemma SentenceClipsOrderFree(e1: Env, e2: Env, words: seq<string>)
    requires e1.signsDir == e2.signsDir && e1.files == e2.files
    ensures SentenceClips(e1, words).Err? == SentenceClips(e2, words).Err?
    ensures SentenceClips(e1, words).Err? ==> SentenceClips(e1, words).error == SentenceClips(e2, words).error
    ensures SentenceClips(e1, words).Ok? ==> |SentenceClips(e1, words).value| == |SentenceClips(e2, words).value|
  {
    forall k | 0 <= k < |words| {
      WordClipOrderFree(e1, e2, words[k]);
    }
    CollectAlike(WordClips(e1, words), WordClips(e2, words));
  }

  /**
   * The unspecified iteration order of the extension set can change which file
   * a word is shown with, but never whether the compile fails or with which error.
   */
  lemma CompileOrderFree(e1: Env, e2: Env, sentence: string, outputPath: string)
    requires e1.signsDir == e2.signsDir && e1.files == e2.files
    ensures Compile(e1, sentence, outputPath).Err? == Compile(e2, sentence, outputPath).Err?
    ensures Compile(e1, sentence, outputPath).Err? ==>
      Compile(e1, sentence, outputPath).error == Compile(e2, sentence, outputPath).error
  {
    SentenceClipsOrderFree(e1, e2, Tokens(sentence));
  }

  /**
   * The `SignLanguageCompiler` object: its asset directory and its set of
   * supported extensions, held as the order in which that set iterates.
   */
  class SignLanguageCompiler {
    const signsDir: string
    /** The supported extensions in this object's iteration order: fixed, but unspecified. */
    const extOrder: ExtOrder

    constructor (signsDirectory: string)
      ensures signsDir == signsDirectory
      ensures forall e :: e in extOrder <==> e in SupportedExtensions
    {
      signsDir := signsDirectory;
      var order: ExtOrder := *;
      extOrder := order;
      ExtOrderMembers(order);
    }

    /** `find_file`: tries each extension in the set's order and returns the first candidate that exists. */
    method FindFile(name: string, files: set<string>) returns (path: Option<string>)
      ensures path == Resolve(Env(signsDir, extOrder, files), name)
      ensures path.Some? ==>
        exists ext :: ext in SupportedExtensions && path.value == Candidate(signsDir, name, ext) && path.value in files
      ensures path.None? <==> forall ext :: ext in SupportedExtensions ==> Candidate(signsDir, name, ext) !in files
    {
      ResolveSpec(Env(signsDir, extOrder, files), name);
      var capitalized := Capitalize(name);
      var i := 0;
      while i < |extOrder|
        invariant 0 <= i <= |extOrder|
        invariant FirstExisting(signsDir, extOrder, files, name) == FirstExisting(signsDir, extOrder[i..], files, name)
      {
        var ext := extOrder[i];
        var candidate := PathJoin(signsDir, capitalized + ext);
        if candidate in files {
          return Some(candidate);
        }
        assert extOrder[i..][1..] == extOrder[i + 1..];
        i := i + 1;
      }
      return None;
    }

    /** `spell_word`: one 0.5 s clip per letter, raising at the first letter that has no asset. */
    method SpellWord(word: string, files: set<string>) returns (r: Result<Option<Clip>, Error>)
      ensures r == Spell(Env(signsDir, extOrder, files), word)
    {
      ghost var env := Env(signsDir, extOrder, files);
      var letterClips: seq<Clip> := [];
      var i := 0;
      assert word[i..] == word;
      PrefixWithEmpty(LetterClips(env, word));
      while i < |word|
        invariant 0 <= i <= |word|
        invariant LetterClips(env, word) == PrefixWith(letterClips, LetterClips(env, word[i..]))
      {
        var letter := word[i];
        assert word[i..][0] == letter && word[i..][1..] == word[i + 1..];
        if IsAlpha(letter) {
          var letterPath := FindFile([letter], files);
          if letterPath.None? {
            return Err(LetterNotFound(letter));
          }
          var clip := CreateClip(letterPath.value, LetterDurationMs);
          PrefixWithAssoc(letterClips, [clip], LetterClips(env, word[i + 1..]));
          letterClips := letterClips + [clip];
        }
        i := i + 1;
      }
      assert letterClips + [] == letterClips;
      r := Ok(if letterClips == [] then None else Some(Concat(letterClips)));
    }

    /** One iteration of `compile_sentence`'s word loop: the word's own asset, else its spelling. */
    method ClipForWord(word: string, files: set<string>) returns (r: Result<Option<Clip>, Error>)
      ensures r == WordClip(Env(signsDir, extOrder, files), word)
    {
      var signPath := FindFile(word, files);
      if signPath.Some? {
        return Ok(Some(CreateClip(signPath.value)));
      }
      r := SpellWord(word, files);
    }

    /**
     * `compile_sentence`: collects one clip per word that yields one, in order,
     * then renders their concatenation and closes the final video and every clip.
     */
    method CompileSentence(sentence: string, outputPath: string, files: set<string>) returns (r: Result<Compiled, Error>)
      ensures r == Compile(Env(signsDir, extOrder, files), sentence, outputPath)
    {
      var words := Split(Sanitize(sentence));
      var collected := CollectClips(words, files);
      if collected.Err? {
        return Err(collected.error);
      }
      var clips := collected.value;
      if clips == [] {
        return Err(NoValidClips);
      }
      var finalVideo := Concat(clips);
      var render := RenderRequest(outputPath, finalVideo, RenderFps, RenderCodec, false);
      var closed := CloseAll(finalVideo, clips);
      r := Ok(Compiled(render, closed));
    }

    /** The closing calls at the end of `compile_sentence`: the final video first, then every clip in order. */
    static method CloseAll(finalVideo: Clip, clips: seq<Clip>) returns (closed: seq<Clip>)
      ensures closed == [finalVideo] + clips
    {
      closed := [finalVideo];
      for k := 0 to |clips|
        invariant closed == [finalVideo] + clips[..k]
      {
        closed := closed + [clips[k]];
      }
      assert clips[..|clips|] == clips;
    }

    /** The word loop of `compile_sentence`: the clips of the words that yield one, in order. */
    method CollectClips(words: seq<string>, files: set<string>) returns (r: Result<seq<Clip>, Error>)
      ensures r == SentenceClips(Env(signsDir, extOrder, files), words)
    {
      ghost var env := Env(signsDir, extOrder, files);
      var clips: seq<Clip> := [];
      var i := 0;
      assert words[i..] == words;
      PrefixWithEmpty(SentenceClips(env, words));
      while i < |words|
        invariant 0 <= i <= |words|
        invariant SentenceClips(env, words) == PrefixWith(clips, SentenceClips(env, words[i..]))
      {
        SentenceClipsStep(env, words, i);
        var wordClip := ClipForWord(words[i], files);
        if wordClip.Err? {
          return Err(wordClip.error);
        }
        var clip := wordClip.value;
        PrefixWithAssoc(clips, OptionToSeq(clip), SentenceClips(env, words[i + 1..]));
        if clip.Some? {
          clips := clips + [clip.value];
        } else {
          assert clips + [] == clips;
        }
        i := i + 1;
      }
      assert clips + [] == clips;
      r := Ok(clips);
    }
  }

  const MainSignsDirectory: string := "signs/"
  const MainOutputPath: string := "output_sign_language.mp4"

  /**
   * `main_sign(text)`: compiles `text` with the assets under "signs/" and
   * returns the fixed output path, or lets the compile's error escape.
   */
  method MainSign(text: string, files: set<string>) returns (r: Result<string, Error>)
    ensures r.Ok? ==> r.value == "output_sign_language.mp4"
    ensures forall order: ExtOrder ::
      (r.Err? <==> Compile(Env(MainSignsDirectory, order, files), text, MainOutputPath).Err?)
      && (r.Err? ==> r.error == Compile(Env(MainSignsDirectory, order, files), text, MainOutputPath).error)
  {
    var compiler := new SignLanguageCompiler(MainSignsDirectory);
    var compiled := compiler.CompileSentence(text, MainOutputPath, files);
    forall order: ExtOrder
      ensures (compiled.Err? <==> Compile(Env(MainSignsDirectory, order, files), text, MainOutputPath).Err?)
      ensures compiled.Err? ==> compiled.error == Compile(Env(MainSignsDirectory, order, files), text, MainOutputPath).error
    {
      CompileOrderFree(Env(MainSignsDirectory, compiler.extOrder, files), Env(MainSignsDirectory, order, files), text, MainOutputPath);
    }
    if compiled.Err? {
      return Err(compiled.error);
    }
    return Ok(MainOutputPath);
  }
}
