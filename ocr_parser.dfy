/**
 * The Tesseract parser: loading an image, plain and detailed recognition with
 * their error mapping, and the confidence aggregator that turns recognition
 * elements into filtered word records with a summary.
 */
module OcrParser {
  import opened Text
  import opened Paths
  import opened Outcomes
  import opened Collaborators

  /** What `_load_image` accepts: an image that is already loaded, or a path. */
  datatype ImageSource = Loaded(image: Image) | FromPath(path: Path)

  /** One entry of the `words` list: `{text, confidence, bbox}`. */
  datatype WordRecord = WordRecord(text: string, confidence: int, bbox: Bbox)

  /** The dictionary `extract_text_with_confidence` returns. */
  datatype ConfidenceReport = ConfidenceReport(
    fullText: string,
    words: seq<WordRecord>,
    avgConfidence: real,
    totalWords: nat)

  // ---------------------------------------------------------------------
  // The confidence aggregator, as functions on the recognised elements
  // ---------------------------------------------------------------------

  /** An element survives the loop when its stripped text is not empty and
      its confidence is not below the threshold. */
  predicate Keeps(e: Element, minConfidence: real) {
    !IsBlank(e.text) && !((e.conf as real) < minConfidence)
  }

  /** The record built for a surviving element: its text as recognised (not
      stripped), its confidence and its box. */
  function Word(e: Element): WordRecord {
    WordRecord(e.text, e.conf, e.bbox)
  }

  /** The words the loop appends, in the order of the elements. */
  function KeptWords(data: seq<Element>, minConfidence: real): seq<WordRecord>
  {
    if data == [] then []
    else
      var before := KeptWords(data[..|data| - 1], minConfidence);
      var e := data[|data| - 1];
      if Keeps(e, minConfidence) then before + [Word(e)] else before
  }

  /** The positions of the surviving elements. */
  function KeptIndices(data: seq<Element>, minConfidence: real): (r: seq<nat>)
    ensures forall k :: 0 <= k < |r| ==> r[k] < |data|
  {
    if data == [] then []
    else
      var n := |data| - 1;
      var before := KeptIndices(data[..n], minConfidence);
      if Keeps(data[n], minConfidence) then before + [n] else before
  }

  /** The kept positions are in increasing order, and they are exactly the
      positions whose element passes both tests. */
  lemma {:induction false} KeptIndicesSpec(data: seq<Element>, minConfidence: real)
    ensures forall k :: 0 <= k < |KeptIndices(data, minConfidence)| ==>
              Keeps(data[KeptIndices(data, minConfidence)[k]], minConfidence)
    ensures forall k, l :: 0 <= k < l < |KeptIndices(data, minConfidence)| ==>
              KeptIndices(data, minConfidence)[k] < KeptIndices(data, minConfidence)[l]
    ensures forall i :: 0 <= i < |data| && Keeps(data[i], minConfidence) ==> i in KeptIndices(data, minConfidence)
  {
    if data != [] {
      var n := |data| - 1;
      var prefix := data[..n];
      var before := KeptIndices(prefix, minConfidence);
      KeptIndicesSpec(prefix, minConfidence);
      var r := KeptIndices(data, minConfidence);
      assert r == if Keeps(data[n], minConfidence) then before + [n] else before;
      forall k | 0 <= k < |r| ensures Keeps(data[r[k]], minConfidence) {
        if k < |before| {
          assert Keeps(prefix[before[k]], minConfidence);
          assert r[k] == before[k] && prefix[before[k]] == data[before[k]];
        } else {
          assert r[k] == n;
        }
      }
      forall i | 0 <= i < |data| && Keeps(data[i], minConfidence) ensures i in r {
        if i < n {
          assert prefix[i] == data[i];
        }
      }
    }
  }

  /** The k-th word is built from the element at the k-th kept position, so
      the words are the surviving elements in their original order, each
      carrying its own text, confidence and box unchanged. */
  lemma {:induction false} KeptWordsFollowIndices(data: seq<Element>, minConfidence: real)
    ensures |KeptWords(data, minConfidence)| == |KeptIndices(data, minConfidence)|
    ensures forall k :: 0 <= k < |KeptIndices(data, minConfidence)| ==>
              KeptWords(data, minConfidence)[k] == Word(data[KeptIndices(data, minConfidence)[k]])
  {
    if data != [] {
      var n := |data| - 1;
      KeptWordsFollowIndices(data[..n], minConfidence);
      var before := KeptWords(data[..n], minConfidence);
      var ix := KeptIndices(data[..n], minConfidence);
      forall k | 0 <= k < |ix| ensures before[k] == Word(data[ix[k]]) {
        assert data[..n][ix[k]] == data[ix[k]];
      }
      if Keeps(data[n], minConfidence) {
        assert KeptWords(data, minConfidence) == before + [Word(data[n])];
        assert KeptIndices(data, minConfidence) == ix + [n];
      } else {
        assert KeptWords(data, minConfidence) == before;
        assert KeptIndices(data, minConfidence) == ix;
      }
    }
  }

  /** An element is emitted if and only if its stripped text is not empty and
      its confidence reaches the threshold. */
  lemma EmittedIff(data: seq<Element>, minConfidence: real, i: nat)
    requires i < |data|
    ensures i in KeptIndices(data, minConfidence) <==>
              !IsBlank(data[i].text) && data[i].conf as real >= minConfidence
  {
    KeptIndicesSpec(data, minConfidence);
  }

  /** Every emitted word has a non-blank text and a confidence at or above the
      threshold. */
  lemma KeptWordsSound(data: seq<Element>, minConfidence: real)
    ensures forall w :: w in KeptWords(data, minConfidence) ==>
              !IsBlank(w.text) && w.confidence as real >= minConfidence
  {
    KeptWordsFollowIndices(data, minConfidence);
    KeptIndicesSpec(data, minConfidence);
    var ws := KeptWords(data, minConfidence);
    var ix := KeptIndices(data, minConfidence);
    forall w | w in ws ensures !IsBlank(w.text) && w.confidence as real >= minConfidence {
      var k :| 0 <= k < |ws| && ws[k] == w;
      assert Keeps(data[ix[k]], minConfidence);
    }
  }

  /** The words whose confidence reaches `minConfidence`, in order. */
  function AtLeast(words: seq<WordRecord>, minConfidence: real): seq<WordRecord>
  {
    if words == [] then []
    else
      var before := AtLeast(words[..|words| - 1], minConfidence);
      var w := words[|words| - 1];
      if (w.confidence as real) < minConfidence then before else before + [w]
  }

  lemma {:induction false} AtLeastShrinks(words: seq<WordRecord>, minConfidence: real)
    ensures |AtLeast(words, minConfidence)| <= |words|
  {
    if words != [] {
      AtLeastShrinks(words[..|words| - 1], minConfidence);
    }
  }

  /** Raising the threshold from `t1` to `t2` keeps exactly those words at
      `t1` whose confidence reaches `t2`, in the same order: the words at `t2`
      are a subsequence of the words at `t1`. */
  lemma {:induction false} RaisingThreshold(data: seq<Element>, t1: real, t2: real)
    requires t1 <= t2
    ensures KeptWords(data, t2) == AtLeast(KeptWords(data, t1), t2)
  {
    if data != [] {
      var n := |data| - 1;
      RaisingThreshold(data[..n], t1, t2);
      var before := KeptWords(data[..n], t1);
      if Keeps(data[n], t1) {
        assert (before + [Word(data[n])])[..|before|] == before;
      }
    }
  }

  /** A higher threshold never yields more words. */
  lemma MonotoneWordCount(data: seq<Element>, t1: real, t2: real)
    requires t1 <= t2
    ensures |KeptWords(data, t2)| <= |KeptWords(data, t1)|
    ensures forall i :: i in KeptIndices(data, t2) ==> i in KeptIndices(data, t1)
  {
    RaisingThreshold(data, t1, t2);
    AtLeastShrinks(KeptWords(data, t1), t2);
    KeptIndicesSpec(data, t1);
    KeptIndicesSpec(data, t2);
  }

  function Texts(words: seq<WordRecord>): (r: seq<string>)
    ensures |r| == |words|
    ensures forall k :: 0 <= k < |words| ==> r[k] == words[k].text
  {
    if words == [] then [] else [words[0].text] + Texts(words[1..])
  }

  /** `[w['confidence'] for w in words if w['confidence'] > 0]`. */
  function PositiveConfidences(words: seq<WordRecord>): seq<int>
  {
    if words == [] then []
    else
      var rest := PositiveConfidences(words[1..]);
      if words[0].confidence > 0 then [words[0].confidence] + rest else rest
  }

  /** The list holds only positive confidences, each of one of the words, and
      it is empty exactly when no word has a positive confidence. */
  lemma {:induction false} PositiveConfidencesSpec(words: seq<WordRecord>)
    ensures var r := PositiveConfidences(words);
            && (forall k :: 0 <= k < |r| ==> r[k] > 0)
            && (forall k :: 0 <= k < |r| ==> exists w :: w in words && w.confidence == r[k])
            && (r == [] <==> forall w :: w in words ==> w.confidence <= 0)
  {
    if words != [] {
      PositiveConfidencesSpec(words[1..]);
      assert forall w :: w in words[1..] ==> w in words;
      assert forall w :: w in words ==> w == words[0] || w in words[1..];
    }
  }

  /** The confidences of the words, in order. */
  function Confidences(words: seq<WordRecord>): (r: seq<int>)
    ensures |r| == |words|
    ensures forall k :: 0 <= k < |words| ==> r[k] == words[k].confidence
  {
    if words == [] then [] else [words[0].confidence] + Confidences(words[1..])
  }

  /** The confidence filter seen from the front: the first word is kept or
      dropped by its own confidence, and the rest is filtered on its own. */
  lemma {:induction false} AtLeastPrepend(w: WordRecord, ws: seq<WordRecord>, minConfidence: real)
    ensures AtLeast([w] + ws, minConfidence)
            == (if (w.confidence as real) < minConfidence then [] else [w]) + AtLeast(ws, minConfidence)
    decreases |ws|
  {
    var head := if (w.confidence as real) < minConfidence then [] else [w];
    if ws == [] {
      assert ([w] + ws)[..0] == [];
    } else {
      var n := |ws| - 1;
      var all := [w] + ws;
      assert all[..|all| - 1] == [w] + ws[..n];
      assert all[|all| - 1] == ws[n];
      AtLeastPrepend(w, ws[..n], minConfidence);
      var x := ws[n];
      if !((x.confidence as real) < minConfidence) {
        assert head + AtLeast(ws[..n], minConfidence) + [x] == head + (AtLeast(ws[..n], minConfidence) + [x]);
      }
    }
  }

  /** `valid_conf` is exactly the confidences of the words whose confidence
      is positive, in order: nothing positive is left out. */
  lemma {:induction false} PositiveConfidencesComplete(words: seq<WordRecord>)
    ensures PositiveConfidences(words) == Confidences(AtLeast(words, 1.0))
  {
    if words != [] {
      var w := words[0];
      var rest := words[1..];
      assert words == [w] + rest;
      AtLeastPrepend(w, rest, 1.0);
      PositiveConfidencesComplete(rest);
      var tail := AtLeast(rest, 1.0);
      if w.confidence > 0 {
        assert AtLeast(words, 1.0) == [w] + tail;
        assert ([w] + tail)[1..] == tail;
      } else {
        assert AtLeast(words, 1.0) == tail;
      }
    }
  }

  function Sum(xs: seq<int>): int
  {
    if xs == [] then 0 else xs[0] + Sum(xs[1..])
  }

  /** `sum(xs) / len(xs) if xs else 0`, in exact arithmetic. */
  function Mean(xs: seq<int>): real
  {
    if xs == [] then 0.0 else (Sum(xs) as real) / (|xs| as real)
  }

  lemma {:induction false} SumBounds(xs: seq<int>, lo: int, hi: int)
    requires forall k :: 0 <= k < |xs| ==> lo <= xs[k] <= hi
    ensures |xs| * lo <= Sum(xs) <= |xs| * hi
  {
    if xs != [] {
      SumBounds(xs[1..], lo, hi);
    }
  }

  /** The mean of numbers between `lo` and `hi` lies between `lo` and `hi`. */
  lemma MeanBounds(xs: seq<int>, lo: int, hi: int)
    requires xs != []
    requires forall k :: 0 <= k < |xs| ==> lo <= xs[k] <= hi
    ensures lo as real <= Mean(xs) <= hi as real
  {
    SumBounds(xs, lo, hi);
    CastBounds(|xs|, Sum(xs), lo, hi);
    QuotientBounds(Sum(xs) as real, |xs| as real, lo as real, hi as real);
  }

  /** `n * lo <= s <= n * hi` carried over from integers to reals. */
  lemma CastBounds(n: int, s: int, lo: int, hi: int)
    requires n * lo <= s <= n * hi
    ensures (n as real) * (lo as real) <= s as real <= (n as real) * (hi as real)
  {
    assert (n as real) * (lo as real) == (n * lo) as real;
    assert (n as real) * (hi as real) == (n * hi) as real;
  }

  /** Dividing `n * lo <= s <= n * hi` by a positive `n`. */
  lemma QuotientBounds(s: real, n: real, lo: real, hi: real)
    requires n > 0.0
    requires n * lo <= s <= n * hi
    ensures lo <= s / n <= hi
  {
    var q := s / n;
    assert q * n == s;
    assert (q - lo) * n >= 0.0;
    assert (hi - q) * n >= 0.0;
  }

  /** Lines 205-214: the summary of the kept words. */
  function Summarize(words: seq<WordRecord>): ConfidenceReport
  {
    ConfidenceReport(JoinSpaced(Texts(words)), words, Mean(PositiveConfidences(words)), |words|)
  }

  /** The confidence aggregator: filter the elements, then summarise. */
  function Aggregate(data: seq<Element>, minConfidence: real): ConfidenceReport
  {
    Summarize(KeptWords(data, minConfidence))
  }

  /** The average is never negative; it is 0 exactly when no kept word has a
      positive confidence (so in particular when no word is kept), and it is
      at most 100 when the recogniser's confidences are. */
  lemma AverageConfidenceRange(data: seq<Element>, minConfidence: real)
    ensures var r := Aggregate(data, minConfidence);
            && r.avgConfidence >= 0.0
            && (r.avgConfidence == 0.0 <==> forall w :: w in r.words ==> w.confidence <= 0)
            && (r.totalWords == 0 ==> r.avgConfidence == 0.0)
  {
    var ws := KeptWords(data, minConfidence);
    var ps := PositiveConfidences(ws);
    PositiveConfidencesSpec(ws);
    if ps != [] {
      MeanBounds(ps, 1, Max(ps));
    }
  }

  /** `avg_confidence` averages exactly the positive confidences of the kept
      words, each once, in order. */
  lemma AverageOfPositiveConfidences(data: seq<Element>, minConfidence: real)
    ensures Aggregate(data, minConfidence).avgConfidence
            == Mean(Confidences(AtLeast(KeptWords(data, minConfidence), 1.0)))
  {
    PositiveConfidencesComplete(KeptWords(data, minConfidence));
  }

  function Max(xs: seq<int>): (m: int)
    requires xs != []
    ensures forall k :: 0 <= k < |xs| ==> xs[k] <= m
  {
    if |xs| == 1 then xs[0]
    else
      var rest := Max(xs[1..]);
      if xs[0] > rest then xs[0] else rest
  }

  /** With confidences of at most 100 the average is at most 100. */
  lemma AverageConfidenceAtMost100(data: seq<Element>, minConfidence: real)
    requires forall i :: 0 <= i < |data| ==> data[i].conf <= 100
    ensures Aggregate(data, minConfidence).avgConfidence <= 100.0
  {
    var ws := KeptWords(data, minConfidence);
    var ps := PositiveConfidences(ws);
    KeptWordsFollowIndices(data, minConfidence);
    PositiveConfidencesSpec(ws);
    if ps != [] {
      forall k | 0 <= k < |ps| ensures 1 <= ps[k] <= 100 {
        var w :| w in ws && w.confidence == ps[k];
        var j :| 0 <= j < |ws| && ws[j] == w;
      }
      MeanBounds(ps, 1, 100);
    }
  }

  /** `total_words` counts the words, and `full_text` is empty exactly when no
      word survives (every kept text is non-blank, hence not empty). */
  lemma FullTextEmptyIffNoWords(data: seq<Element>, minConfidence: real)
    ensures var r := Aggregate(data, minConfidence);
            && r.totalWords == |r.words| == |KeptIndices(data, minConfidence)|
            && (r.fullText == "" <==> r.totalWords == 0)
  {
    var ws := KeptWords(data, minConfidence);
    KeptWordsFollowIndices(data, minConfidence);
    KeptWordsSound(data, minConfidence);
    JoinSpacedEmpty(Texts(ws));
    if |ws| == 1 {
      assert ws[0] in ws;
      assert Texts(ws)[0] == ws[0].text;
      assert IsBlank("");
      assert ws[0].text != "";
    }
  }

  // ---------------------------------------------------------------------
  // The parser
  // ---------------------------------------------------------------------

  /** A `TesseractError` from the engine becomes an `OCRError` of the given
      stage; any other exception passes through unchanged. */
  function RecognitionFailure(stage: OcrStage, e: Exception): (r: Exception)
    ensures !r.TesseractError?
    ensures !e.TesseractError? ==> r == e
    ensures e.TesseractError? ==> r == OCRError(stage, e)
  {
    if e.TesseractError? then OCRError(stage, e) else e
  }

  class TesseractOCRParser {
    const lang: string

    /** The language is stored as given; "eng" when omitted. */
    constructor (lang: string := "eng")
      ensures this.lang == lang
    {
      this.lang := lang;
    }

    /** `_load_image`: an image is returned as it is; a path must exist and
        open. */
    function LoadImage(env: Environment, source: ImageSource): (r: Result<Image>)
      ensures source.Loaded? ==> r == Ok(source.image)
      ensures source.FromPath? && source.path !in env.files ==>
                r == Err(FileNotFoundError(ImageFile, source.path))
      ensures source.FromPath? && r.Ok? ==> source.path in env.files && env.open(source.path) == r
      ensures source.FromPath? && source.path in env.files && env.open(source.path).Ok? ==>
                r == env.open(source.path)
      ensures source.FromPath? && source.path in env.files && env.open(source.path).Err? ==>
                r == Err(OCRError(Loading, env.open(source.path).error))
      ensures r.Err? ==> r.error.FileNotFoundError? || (r.error.OCRError? && r.error.stage == Loading)
    {
      match source
      case Loaded(image) => Ok(image)
      case FromPath(path) =>
        if path !in env.files then Err(FileNotFoundError(ImageFile, path))
        else
          match env.open(path)
          case Ok(image) => Ok(image)
          case Err(e) => Err(OCRError(Loading, e))
    }

    /** `extract_text`: the engine's string without its surrounding
        whitespace. */
    function ExtractText(env: Environment, source: ImageSource, config: string := ""): (r: Result<string>)
      ensures LoadImage(env, source).Err? ==> r == Err(LoadImage(env, source).error)
      ensures r.Ok? ==> && LoadImage(env, source).Ok?
                        && var raw := env.imageToString(LoadImage(env, source).value, lang, config);
                        && raw.Ok? && r.value == Strip(raw.value)
      ensures r.Ok? ==> Trimmed(r.value)
      ensures LoadImage(env, source).Ok? ==>
                var raw := env.imageToString(LoadImage(env, source).value, lang, config);
                raw.Ok? ==> r == Ok(Strip(raw.value))
      ensures LoadImage(env, source).Ok? ==>
                var raw := env.imageToString(LoadImage(env, source).value, lang, config);
                raw.Err? ==> r == Err(RecognitionFailure(TextRecognition, raw.error))
      ensures r.Err? ==> !r.error.TesseractError?
    {
      match LoadImage(env, source)
      case Err(e) => Err(e)
      case Ok(image) =>
        match env.imageToString(image, lang, config)
        case Err(e) => Err(RecognitionFailure(TextRecognition, e))
        case Ok(text) =>
          StripSlice(text);
          Ok(Strip(text))
    }

    /** `extract_data`: the engine's element list, unchanged. */
    function ExtractData(env: Environment, source: ImageSource, config: string := ""): (r: Result<seq<Element>>)
      ensures LoadImage(env, source).Err? ==> r == Err(LoadImage(env, source).error)
      ensures LoadImage(env, source).Ok? ==>
                var raw := env.imageToData(LoadImage(env, source).value, lang, config);
                && (raw.Ok? ==> r == raw)
                && (raw.Err? ==> r == Err(RecognitionFailure(DataRecognition, raw.error)))
      ensures r.Err? ==> !r.error.TesseractError?
    {
      match LoadImage(env, source)
      case Err(e) => Err(e)
      case Ok(image) =>
        match env.imageToData(image, lang, config)
        case Err(e) => Err(RecognitionFailure(DataRecognition, e))
        case Ok(data) => Ok(data)
    }

    /** `extract_text_with_confidence`: recognise the elements, then keep the
        words the loop keeps and summarise them. */
    method ExtractTextWithConfidence(env: Environment, source: ImageSource, minConfidence: real := 0.0, config: string := "")
      returns (r: Result<ConfidenceReport>)
      ensures ExtractData(env, source, config).Err? ==> r == Err(ExtractData(env, source, config).error)
      ensures ExtractData(env, source, config).Ok? ==>
                r == Ok(Aggregate(ExtractData(env, source, config).value, minConfidence))
    {
      var data := ExtractData(env, source, config);
      if data.Err? {
        return Err(data.error);
      }
      var elements := data.value;
      var words: seq<WordRecord> := [];
      for i := 0 to |elements|
        invariant words == KeptWords(elements[..i], minConfidence)
      {
        assert elements[..i + 1][..i] == elements[..i];
        var text := elements[i].text;
        if IsBlank(text) {
          continue;
        }
        var conf := elements[i].conf;
        if (conf as real) < minConfidence {
          continue;
        }
        words := words + [WordRecord(text, conf, elements[i].bbox)];
      }
      assert elements[..|elements|] == elements;
      r := Ok(Summarize(words));
    }
  }

  // ---------------------------------------------------------------------
  // The three cases of the repository's unit tests
  // ---------------------------------------------------------------------

  const AnyLayout := Layout(5, 1, 1, 1, 1, 1)
  const Hello95 := Element("Hello", 95, Bbox(10, 10, 30, 15), AnyLayout)
  const Unrecognised := Element("", -1, Bbox(0, 0, 0, 0), AnyLayout)
  const World88 := Element("World", 88, Bbox(50, 10, 40, 15), AnyLayout)
  const Test75 := Element("Test", 75, Bbox(90, 10, 35, 15), AnyLayout)
  const Test50 := Element("Test", 50, Bbox(90, 10, 35, 15), AnyLayout)
  const Low30 := Element("Low", 30, Bbox(10, 10, 30, 15), AnyLayout)
  const Quality40 := Element("Quality", 40, Bbox(50, 10, 40, 15), AnyLayout)

  /** A text whose first character is not whitespace is not blank. */
  lemma NotBlankWhenFirstIsText(s: string)
    requires s != [] && !IsSpace(s[0])
    ensures !IsBlank(s)
  {
    StripOfSpace(s);
  }

  lemma ExampleTextsNotBlank()
    ensures !IsBlank("Hello") && !IsBlank("World") && !IsBlank("Test")
  {
    NotBlankWhenFirstIsText("Hello");
    NotBlankWhenFirstIsText("World");
    NotBlankWhenFirstIsText("Test");
  }

  /** The loop over four elements of which the second fails a test. */
  lemma WordsOfFour(a: Element, b: Element, c: Element, d: Element, t: real)
    requires Keeps(a, t) && !Keeps(b, t) && Keeps(c, t) && Keeps(d, t)
    ensures KeptWords([a, b, c, d], t) == [Word(a), Word(c), Word(d)]
  {
    assert [a, b, c, d][..3] == [a, b, c];
    assert [a, b, c][..2] == [a, b];
    assert [a, b][..1] == [a];
    assert [a][..0] == [];
    assert KeptWords([a], t) == [Word(a)];
    assert KeptWords([a, b], t) == [Word(a)];
    assert KeptWords([a, b, c], t) == [Word(a), Word(c)];
  }

  /** The loop over three elements of which the last fails a test. */
  lemma WordsOfThree(a: Element, b: Element, c: Element, t: real)
    requires Keeps(a, t) && Keeps(b, t) && !Keeps(c, t)
    ensures KeptWords([a, b, c], t) == [Word(a), Word(b)]
  {
    assert [a, b, c][..2] == [a, b];
    assert [a, b][..1] == [a];
    assert [a][..0] == [];
    assert KeptWords([a], t) == [Word(a)];
    assert KeptWords([a, b], t) == [Word(a), Word(b)];
  }

  /** Of four elements, the empty one with confidence -1 is dropped at
      threshold 0. */
  lemma NoThresholdWords()
    ensures KeptWords([Hello95, Unrecognised, World88, Test75], 0.0)
            == [Word(Hello95), Word(World88), Word(Test75)]
  {
    ExampleTextsNotBlank();
    assert IsBlank("");
    WordsOfFour(Hello95, Unrecognised, World88, Test75, 0.0);
  }

  lemma ThreeWordsText()
    ensures JoinSpaced(Texts([Word(Hello95), Word(World88), Word(Test75)])) == "Hello World Test"
  {
    var ws := [Word(Hello95), Word(World88), Word(Test75)];
    assert Texts(ws) == ["Hello", "World", "Test"];
    var ts := ["Hello", "World", "Test"];
    assert ts[1..] == ["World", "Test"] && ts[1..][1..] == ["Test"];
    assert JoinSpaced(["World", "Test"]) == "World Test";
  }

  lemma ThreeWordsConfidences()
    ensures PositiveConfidences([Word(Hello95), Word(World88), Word(Test75)]) == [95, 88, 75]
  {
    var ws := [Word(Hello95), Word(World88), Word(Test75)];
    assert ws[1..] == [Word(World88), Word(Test75)];
    assert ws[1..][1..] == [Word(Test75)];
    assert [Word(Test75)][1..] == [];
    assert PositiveConfidences([Word(Test75)]) == [75];
  }

  /** Confidences 95, 88 and 75 average to 86. */
  lemma NoThresholdSummary()
    ensures var ws := [Word(Hello95), Word(World88), Word(Test75)];
            Summarize(ws) == ConfidenceReport("Hello World Test", ws, 86.0, 3)
  {
    ThreeWordsText();
    ThreeWordsConfidences();
    var xs := [95, 88, 75];
    assert xs[1..] == [88, 75] && xs[1..][1..] == [75];
    assert Sum(xs) == 258;
  }

  /** The same four elements give three words, "Hello World Test" and an
      average of 86. */
  lemma NoThresholdExample()
    ensures var r := Aggregate([Hello95, Unrecognised, World88, Test75], 0.0);
            && r.totalWords == 3
            && r.fullText == "Hello World Test"
            && r.words[0] == WordRecord("Hello", 95, Bbox(10, 10, 30, 15))
            && r.avgConfidence == 86.0
  {
    NoThresholdWords();
    NoThresholdSummary();
  }

  /** Threshold 80 keeps the confidences 95 and 88 and drops 50. */
  lemma ThresholdWords()
    ensures KeptWords([Hello95, World88, Test50], 80.0) == [Word(Hello95), Word(World88)]
  {
    ExampleTextsNotBlank();
    WordsOfThree(Hello95, World88, Test50, 80.0);
  }

  /** Confidences 95 and 88 average to 91.5. */
  lemma ThresholdSummary()
    ensures var ws := [Word(Hello95), Word(World88)];
            Summarize(ws) == ConfidenceReport("Hello World", ws, 91.5, 2)
  {
    var ws := [Word(Hello95), Word(World88)];
    assert Texts(ws) == ["Hello", "World"];
    assert JoinSpaced(["Hello", "World"]) == "Hello World";
    assert ws[1..] == [Word(World88)];
    assert [Word(World88)][1..] == [];
    assert PositiveConfidences([Word(World88)]) == [88];
    assert PositiveConfidences(ws) == [95, 88];
    assert Sum([95, 88]) == 183;
  }

  /** Threshold 80 over confidences 95, 88, 50: two words, average 91.5. */
  lemma ThresholdExample()
    ensures var r := Aggregate([Hello95, World88, Test50], 80.0);
            && r.totalWords == 2
            && r.fullText == "Hello World"
            && r.avgConfidence == 91.5
  {
    ThresholdWords();
    ThresholdSummary();
  }

  /** Threshold 90 over confidences 30 and 40: nothing survives. */
  lemma EverythingFilteredExample()
    ensures var r := Aggregate([Low30, Quality40], 90.0);
            && r.totalWords == 0
            && r.fullText == ""
            && r.avgConfidence == 0.0
  {
    var data := [Low30, Quality40];
    assert !Keeps(data[0], 90.0) && !Keeps(data[1], 90.0);
    assert data[..1] == [Low30];
    assert [Low30][..0] == [];
    assert KeptWords([Low30], 90.0) == [];
    assert KeptWords(data, 90.0) == [];
  }
}
