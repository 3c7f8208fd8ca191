/** The recorder of `test_scrape` (scripts/scrape.py): strip commas from the
    ingredients the extraction service returned for the with-ingredients window,
    then append one or two labelled training records to the positive and negative
    training files. Each file is the sequence of the `text` fields of its lines. */
module Recorder {
  import opened Text
  import opened Windowing

  /** The instruction sent before every window. */
  const SystemPrompt := "You will be provided HTML from a recipe website. Extract the ingredients from the HTML. Include the quantity with each ingredient name if it is present. If there are no ingredients, respond with 'none'.\n\nRecipe input:"

  /** The target of a negative record. */
  const NoneTarget := "none"

  /** Everything of a record before its window. */
  const RecordHead := "<|user|>" + SystemPrompt + "\n"

  /** Everything of a record between its window and its target. */
  const RecordMiddle := "<|end|>\n<|assistant|>\n"

  /** Everything of a record after its target. */
  const RecordTail := "<|end|>"

  /** The `text` of a training record: the user turn holding the instruction and
      the window, then the assistant turn holding the target. */
  function RecordText(window: string, target: string): (r: string)
    ensures |r| == |RecordHead| + |window| + |RecordMiddle| + |target| + |RecordTail|
    ensures RecordHead <= r
  {
    RecordHead + window + RecordMiddle + target + RecordTail
  }

  /** A record is laid out as head, window, middle, target and tail, so the window
      and the target can be read back from it at fixed offsets. */
  lemma RecordLayout(window: string, target: string)
    ensures var r := RecordText(window, target);
      var w := |RecordHead|;
      var t := w + |window| + |RecordMiddle|;
      && |r| == t + |target| + |RecordTail|
      && r[..w] == RecordHead
      && r[w..w + |window|] == window
      && r[w + |window|..t] == RecordMiddle
      && r[t..t + |target|] == target
      && r[t + |target|..] == RecordTail
  {
  }

  /** Two records with windows of the same length are equal only when their
      windows and their targets are. */
  lemma RecordInjective(w1: string, t1: string, w2: string, t2: string)
    requires |w1| == |w2|
    requires RecordText(w1, t1) == RecordText(w2, t2)
    ensures w1 == w2 && t1 == t2
  {
    RecordLayout(w1, t1);
    RecordLayout(w2, t2);
  }

  /** The message sent to the extraction service: the instruction, a blank line
      and the window. */
  function ExtractorPrompt(window: string): (r: string)
    ensures |r| == |SystemPrompt| + 2 + |window|
    ensures SystemPrompt <= r && r[|SystemPrompt| + 2..] == window
    ensures r[|SystemPrompt|..|SystemPrompt| + 2] == "\n\n"
  {
    SystemPrompt + "\n\n" + window
  }

  /** The structured answer of the extraction service. Its ingredient list is
      rewritten in place after the call. */
  class Recipe {
    var ingredients: seq<string>

    constructor (ingredients: seq<string>)
      ensures this.ingredients == ingredients
    {
      this.ingredients := ingredients;
    }

    /** Remove every comma from every ingredient, replacing the list in place. */
    method StripIngredients()
      modifies this
      ensures ingredients == StripAll(old(ingredients))
      ensures |ingredients| == |old(ingredients)|
      ensures forall i :: 0 <= i < |ingredients| ==> ',' !in ingredients[i]
    {
      ingredients := StripAll(ingredients);
    }
  }

  /** The two append-only training files, each as the sequence of its records. */
  class TrainingFiles {
    var positive: seq<string>
    var negative: seq<string>

    /** Files that already hold earlier records. */
    constructor (positive: seq<string>, negative: seq<string>)
      ensures this.positive == positive && this.negative == negative
    {
      this.positive := positive;
      this.negative := negative;
    }

    /** One `write` to the positive file opened in append mode. */
    method AppendPositive(text: string)
      modifies this
      ensures positive == old(positive) + [text]
      ensures negative == old(negative)
    {
      positive := positive + [text];
    }

    /** One `write` to the negative file opened in append mode. */
    method AppendNegative(text: string)
      modifies this
      ensures negative == old(negative) + [text]
      ensures positive == old(positive)
    {
      negative := negative + [text];
    }

    /** The writes of `test_scrape` once the (comma-stripped) ingredients are
        known: an empty list makes the with-ingredients window a negative record,
        a non-empty one makes it a positive record whose target is the ", "-joined
        list; the before-ingredients window always becomes a negative record,
        written last. Earlier records are kept. */
    method WriteRecords(windows: ExtractedHtml, ingredients: seq<string>)
      modifies this
      ensures |ingredients| == 0 ==>
        && positive == old(positive)
        && negative == old(negative) + [RecordText(windows.withIngredients, NoneTarget),
                                        RecordText(windows.beforeIngredients, NoneTarget)]
      ensures |ingredients| > 0 ==>
        && positive == old(positive) + [RecordText(windows.withIngredients, Join(", ", ingredients))]
        && negative == old(negative) + [RecordText(windows.beforeIngredients, NoneTarget)]
      ensures old(positive) <= positive && old(negative) <= negative
      ensures |positive| + |negative| == old(|positive| + |negative|) + 2
    {
      if |ingredients| == 0 {
        AppendNegative(RecordText(windows.withIngredients, NoneTarget));
      } else {
        AppendPositive(RecordText(windows.withIngredients, Join(", ", ingredients)));
      }
      AppendNegative(RecordText(windows.beforeIngredients, NoneTarget));
    }
  }

  /** `test_scrape` for one page whose serialised body markup is `html`. The
      extraction service is `extractor`, asked once, about the with-ingredients
      window only. A page without an ingredients heading fails before either
      file is touched. */
  method ScrapePage(files: TrainingFiles, html: string, extractor: string -> seq<string>)
    returns (outcome: Extraction)
    modifies files
    ensures outcome == ExtractRough(html)
    ensures outcome.NoIngredients? ==>
      files.positive == old(files.positive) && files.negative == old(files.negative)
    ensures outcome.Extracted? ==>
      var found := StripAll(extractor(ExtractorPrompt(outcome.windows.withIngredients)));
      && (|found| == 0 ==>
            && files.positive == old(files.positive)
            && files.negative == old(files.negative)
                 + [RecordText(outcome.windows.withIngredients, NoneTarget),
                    RecordText(outcome.windows.beforeIngredients, NoneTarget)])
      && (|found| > 0 ==>
            && files.positive == old(files.positive)
                 + [RecordText(outcome.windows.withIngredients, Join(", ", found))]
            && files.negative == old(files.negative)
                 + [RecordText(outcome.windows.beforeIngredients, NoneTarget)])
  {
    outcome := ExtractRough(html);
    if outcome.NoIngredients? {
      return;
    }
    var response := new Recipe(extractor(ExtractorPrompt(outcome.windows.withIngredients)));
    response.StripIngredients();
    files.WriteRecords(outcome.windows, response.ingredients);
  }

  /** The positive target names every ingredient, comma-free, in order: splitting
      it at ", " gives back the stripped list. */
  lemma PositiveTargetRoundTrip(ingredients: seq<string>)
    requires |ingredients| > 0
    ensures Split(Join(", ", StripAll(ingredients)), ", ") == StripAll(ingredients)
    ensures multiset(Join(", ", StripAll(ingredients)))[','] == |ingredients| - 1
  {
    SplitJoin(StripAll(ingredients));
  }
}
