/**
 * The GPT-2 generation loop: `nbTokens` times, feed the last 64 tokens
 * (zero-padded) to the model, take the logits row of the last real token,
 * choose the next token and append it.
 *
 * The model run is a parameter `infer(window, row)` giving row `row` of the
 * predictions for the padded window; the exponential and the uniform draw of
 * every step (`draw(step)`) are parameters too.
 */
module Generation {
  import opened Wrappers
  import opened Sampling

  /** The model's input length. */
  const SequenceLength: nat := 64

  /** The length of a predictions row. */
  const VocabSize: nat := 50257

  /** The number of tokens a generation appends unless told otherwise. */
  const DefaultTokenCount: int := 100

  /** The strategy the client starts with: top-k with k = 40. */
  const DefaultStrategy: Strategy := Strategy(TopK, 40)

  /** `takeLast(n)`: the last `n` tokens, or all of them when there are fewer. */
  function TakeLast(tokens: seq<int>, n: nat): (r: seq<int>)
    ensures |r| == (if n < |tokens| then n else |tokens|)
    ensures r == tokens[|tokens| - |r|..]
  {
    if n < |tokens| then tokens[|tokens| - n..] else tokens
  }

  /** `IntArray(n)`: `n` zeros. */
  function Zeros(n: nat): (r: seq<int>)
    ensures |r| == n && forall i | 0 <= i < n :: r[i] == 0
  {
    seq(n, _ => 0)
  }

  /** `maxTokens + IntArray(SEQUENCE_LENGTH - maxTokens.size)`: the model input. */
  function Window(tokens: seq<int>): seq<int>
  {
    var maxTokens := TakeLast(tokens, SequenceLength);
    maxTokens + Zeros(SequenceLength - |maxTokens|)
  }

  /**
   * The window always holds 64 tokens: the last min(n, 64) tokens in order,
   * then zeros.
   */
  lemma WindowContents(tokens: seq<int>)
    ensures var m := if |tokens| < SequenceLength then |tokens| else SequenceLength;
      && |Window(tokens)| == SequenceLength
      && Window(tokens)[..m] == tokens[|tokens| - m..]
      && forall i | m <= i < SequenceLength :: Window(tokens)[i] == 0
  {
  }

  /**
   * Appending a token writes it into the first padding slot while the window is
   * not full, and slides the full window by one otherwise.
   */
  lemma WindowSlides(tokens: seq<int>, t: int)
    ensures |tokens| < SequenceLength ==> Window(tokens + [t]) == Window(tokens)[|tokens| := t]
    ensures |tokens| >= SequenceLength ==> Window(tokens + [t]) == Window(tokens)[1..] + [t]
  {
    var w := Window(tokens);
    var w' := Window(tokens + [t]);
    if |tokens| < SequenceLength {
      forall i | 0 <= i < SequenceLength ensures w'[i] == w[|tokens| := t][i] {
        if i < |tokens| {
          assert w'[i] == (tokens + [t])[i];
        }
      }
    } else {
      forall i | 0 <= i < SequenceLength ensures w'[i] == (w[1..] + [t])[i] {
        assert w'[i] == (tokens + [t])[|tokens| + 1 - SequenceLength + i];
      }
    }
  }

  /**
   * One generation step: the logits row of the last real token of the window
   * (row -1, an out-of-bounds access, when there is no token at all), then
   * the strategy's choice.
   */
  function StepToken(tokens: seq<int>, strategy: Strategy, infer: (seq<int>, int) -> seq<real>,
                     exp: real -> real, u: real): Result<int>
    requires forall x :: exp(x) > 0.0
  {
    var maxTokens := TakeLast(tokens, SequenceLength);
    if |maxTokens| == 0 then Err(IndexOutOfBounds)
    else ChosenToken(strategy, infer(Window(tokens), |maxTokens| - 1), exp, u)
  }

  /**
   * The tokens after `n` steps from the prompt, each step appending the token
   * `step(tokens, i)` for the tokens so far and the step number `i`, or the
   * first error a step raises.
   */
  function Run(prompt: seq<int>, n: int, step: (seq<int>, nat) -> Result<int>): Result<seq<int>>
    decreases n
  {
    if n <= 0 then Ok(prompt)
    else
      var tokens :- Run(prompt, n - 1, step);
      var next :- step(tokens, n - 1);
      Ok(tokens + [next])
  }

  /** An error stops the run: later steps keep it. */
  lemma {:induction false} RunErrorStays(prompt: seq<int>, m: int, n: int, step: (seq<int>, nat) -> Result<int>)
    requires m <= n
    requires Run(prompt, m, step).Err?
    ensures Run(prompt, n, step) == Run(prompt, m, step)
    decreases n - m
  {
    if m < n {
      RunErrorStays(prompt, m, n - 1, step);
    }
  }

  /** Token `|prompt| + i` is what step `i` returns for the tokens before it. */
  predicate Appended(prompt: seq<int>, tokens: seq<int>, step: (seq<int>, nat) -> Result<int>, i: nat)
  {
    |prompt| + i < |tokens| && step(tokens[..|prompt| + i], i) == Ok(tokens[|prompt| + i])
  }

  /**
   * A successful run keeps the prompt, appends exactly `n` tokens (none for a
   * negative `n`), and each appended token is the step's result for the tokens
   * before it.
   */
  lemma {:induction false} RunShape(prompt: seq<int>, n: int, step: (seq<int>, nat) -> Result<int>)
    requires Run(prompt, n, step).Ok?
    ensures var tokens := Run(prompt, n, step).value;
      && |tokens| == |prompt| + (if n < 0 then 0 else n)
      && tokens[..|prompt|] == prompt
      && forall i | 0 <= i < n :: Appended(prompt, tokens, step, i)
    decreases n
  {
    if n > 0 {
      var prev := Run(prompt, n - 1, step).value;
      RunShape(prompt, n - 1, step);
      var tokens := Run(prompt, n, step).value;
      assert tokens[..|prev|] == prev;
      forall i | 0 <= i < n ensures Appended(prompt, tokens, step, i) {
        if i < n - 1 {
          assert Appended(prompt, prev, step, i);
          assert tokens[..|prompt| + i] == prev[..|prompt| + i];
        }
      }
    }
  }

  /**
   * A run from a non-empty prompt whose steps succeed on every non-empty token
   * list with a vocabulary index never fails, and appends only vocabulary indices.
   */
  lemma {:induction false} RunSucceeds(prompt: seq<int>, n: int, step: (seq<int>, nat) -> Result<int>)
    requires prompt != []
    requires forall tokens: seq<int>, i: nat | tokens != [] :: step(tokens, i).Ok? && 0 <= step(tokens, i).value < VocabSize
    ensures Run(prompt, n, step).Ok?
    ensures var tokens := Run(prompt, n, step).value;
      forall i | |prompt| <= i < |tokens| :: 0 <= tokens[i] < VocabSize
    decreases n
  {
    if n > 0 {
      RunSucceeds(prompt, n - 1, step);
      RunShape(prompt, n - 1, step);
      var prev := Run(prompt, n - 1, step).value;
      assert prev != [];
      var next := step(prev, n - 1);
      assert next.Ok? && 0 <= next.value < VocabSize;
      assert Run(prompt, n, step) == Ok(prev + [next.value]);
    }
  }

  /** The step of the client: `StepToken` with the strategy, the model, and the step's draw. */
  function Stepper(strategy: Strategy, infer: (seq<int>, int) -> seq<real>, exp: real -> real, draw: nat -> real)
    : (seq<int>, nat) -> Result<int>
    requires forall x :: exp(x) > 0.0
  {
    (tokens: seq<int>, i: nat) => StepToken(tokens, strategy, infer, exp, draw(i))
  }

  /** A step on no tokens fails. */
  lemma StepperEmpty(strategy: Strategy, infer: (seq<int>, int) -> seq<real>, exp: real -> real, draw: nat -> real, i: nat)
    requires forall x :: exp(x) > 0.0
    ensures Stepper(strategy, infer, exp, draw)([], i) == Err(IndexOutOfBounds)
  {
    assert StepToken([], strategy, infer, exp, draw(i)) == Err(IndexOutOfBounds);
  }

  /** A step on some tokens chooses from the row of the last of them. */
  lemma StepperAt(strategy: Strategy, infer: (seq<int>, int) -> seq<real>, exp: real -> real, draw: nat -> real,
                  tokens: seq<int>, i: nat)
    requires forall x :: exp(x) > 0.0
    requires tokens != []
    ensures Stepper(strategy, infer, exp, draw)(tokens, i)
      == ChosenToken(strategy, infer(Window(tokens), |TakeLast(tokens, SequenceLength)| - 1), exp, draw(i))
  {
  }

  /** `generateGPT2`: append `nbTokens` chosen tokens to the prompt's tokens. */
  method Generate(prompt: seq<int>, nbTokens: int, strategy: Strategy, infer: (seq<int>, int) -> seq<real>,
                  exp: real -> real, draw: nat -> real) returns (r: Result<seq<int>>)
    requires forall x :: exp(x) > 0.0
    ensures r == Run(prompt, nbTokens, Stepper(strategy, infer, exp, draw))
  {
    var tokens := prompt;
    var step := 0;
    ghost var stepper := Stepper(strategy, infer, exp, draw);
    while step < nbTokens
      invariant 0 <= step <= (if nbTokens < 0 then 0 else nbTokens)
      invariant Run(prompt, step, stepper) == Ok(tokens)
    {
      var maxTokens := TakeLast(tokens, SequenceLength);
      var paddedTokens := maxTokens + Zeros(SequenceLength - |maxTokens|);
      if |maxTokens| == 0 {
        GenerateStepEmpty(prompt, step, nbTokens, strategy, infer, exp, draw, tokens);
        return Err(IndexOutOfBounds);
      }
      PaddedWindow(tokens);
      var outputLogits := infer(paddedTokens, |maxTokens| - 1);
      var nextToken := NextToken(strategy, outputLogits, exp, draw(step));
      GenerateStep(prompt, step, nbTokens, strategy, infer, exp, draw, tokens, nextToken);
      if nextToken.Err? {
        return Err(nextToken.error);
      }
      tokens := tokens + [nextToken.value];
      step := step + 1;
    }
    RunNoSteps(prompt, nbTokens, stepper);
    return Ok(tokens);
  }

  /** The padded `takeLast` is the window. */
  lemma PaddedWindow(tokens: seq<int>)
    ensures TakeLast(tokens, SequenceLength) + Zeros(SequenceLength - |TakeLast(tokens, SequenceLength)|) == Window(tokens)
  {
  }

  /** No steps leave the prompt as it is. */
  lemma RunNoSteps(prompt: seq<int>, n: int, step: (seq<int>, nat) -> Result<int>)
    ensures n <= 0 ==> Run(prompt, n, step) == Ok(prompt)
  {
  }

  /** A step of `Generate` with no tokens ends the run with the out-of-bounds error. */
  lemma GenerateStepEmpty(prompt: seq<int>, s: int, n: int, strategy: Strategy, infer: (seq<int>, int) -> seq<real>,
                          exp: real -> real, draw: nat -> real, tokens: seq<int>)
    requires forall x :: exp(x) > 0.0
    requires 0 <= s < n && |TakeLast(tokens, SequenceLength)| == 0
    requires Run(prompt, s, Stepper(strategy, infer, exp, draw)) == Ok(tokens)
    ensures Run(prompt, n, Stepper(strategy, infer, exp, draw)) == Err(IndexOutOfBounds)
  {
    assert tokens == [];
    StepperEmpty(strategy, infer, exp, draw, s);
    RunStep(prompt, s, n, Stepper(strategy, infer, exp, draw), tokens);
  }

  /** A step of `Generate` on some tokens appends the chosen token, or its error ends the run. */
  lemma GenerateStep(prompt: seq<int>, s: int, n: int, strategy: Strategy, infer: (seq<int>, int) -> seq<real>,
                     exp: real -> real, draw: nat -> real, tokens: seq<int>, next: Result<int>)
    requires forall x :: exp(x) > 0.0
    requires 0 <= s < n && |TakeLast(tokens, SequenceLength)| > 0
    requires Run(prompt, s, Stepper(strategy, infer, exp, draw)) == Ok(tokens)
    requires next == ChosenToken(strategy, infer(Window(tokens), |TakeLast(tokens, SequenceLength)| - 1), exp, draw(s))
    ensures next.Ok? ==> Run(prompt, s + 1, Stepper(strategy, infer, exp, draw)) == Ok(tokens + [next.value])
    ensures next.Err? ==> Run(prompt, n, Stepper(strategy, infer, exp, draw)) == Err(next.error)
  {
    StepperAt(strategy, infer, exp, draw, tokens, s);
    RunStep(prompt, s, n, Stepper(strategy, infer, exp, draw), tokens);
  }

  /** One more step of a run: it appends the step's token, or its error ends the run. */
  lemma RunStep(prompt: seq<int>, s: int, n: int, step: (seq<int>, nat) -> Result<int>, tokens: seq<int>)
    requires 0 <= s < n
    requires Run(prompt, s, step) == Ok(tokens)
    ensures step(tokens, s).Ok? ==> Run(prompt, s + 1, step) == Ok(tokens + [step(tokens, s).value])
    ensures step(tokens, s).Err? ==> Run(prompt, n, step) == Err(step(tokens, s).error)
  {
    if step(tokens, s).Err? {
      RunErrorStays(prompt, s + 1, n, step);
    }
  }

  /** With no prompt tokens, the first step already reads row -1 and fails. */
  lemma EmptyPromptFails(n: int, strategy: Strategy, infer: (seq<int>, int) -> seq<real>,
                         exp: real -> real, draw: nat -> real)
    requires forall x :: exp(x) > 0.0
    requires n >= 1
    ensures Run([], n, Stepper(strategy, infer, exp, draw)) == Err(IndexOutOfBounds)
  {
    var stepper := Stepper(strategy, infer, exp, draw);
    assert stepper([], 0) == Err(IndexOutOfBounds);
    assert Run([], 1, stepper) == Err(IndexOutOfBounds);
    RunErrorStays([], 1, n, stepper);
  }

  /** With a row of one logit per vocabulary entry, either strategy picks a vocabulary index. */
  lemma ChoiceInVocabulary(strategy: Strategy, logits: seq<real>, exp: real -> real, u: real)
    requires forall x :: exp(x) > 0.0
    requires strategy.strategy == Greedy || strategy.value >= 1
    requires |logits| == VocabSize
    ensures ChosenToken(strategy, logits, exp, u).Ok?
    ensures 0 <= ChosenToken(strategy, logits, exp, u).value < VocabSize
  {
    if strategy.strategy == Greedy {
      GreedyChoice(logits, exp, u);
    } else {
      TopKChoice(logits, strategy.value, exp, u);
    }
  }

  /**
   * Generation from a non-empty prompt with the greedy strategy, or top-k with
   * k >= 1, and a model whose rows hold one logit per vocabulary entry, never
   * fails, and every token it appends is a vocabulary index.
   */
  lemma GenerationSucceeds(prompt: seq<int>, n: int, strategy: Strategy,
                           infer: (seq<int>, int) -> seq<real>, exp: real -> real, draw: nat -> real)
    requires forall x :: exp(x) > 0.0
    requires prompt != []
    requires strategy.strategy == Greedy || strategy.value >= 1
    requires forall w, row :: |infer(w, row)| == VocabSize
    ensures Run(prompt, n, Stepper(strategy, infer, exp, draw)).Ok?
    ensures var tokens := Run(prompt, n, Stepper(strategy, infer, exp, draw)).value;
      forall i | |prompt| <= i < |tokens| :: 0 <= tokens[i] < VocabSize
  {
    var stepper := Stepper(strategy, infer, exp, draw);
    forall tokens: seq<int>, i: nat | tokens != []
      ensures stepper(tokens, i).Ok? && 0 <= stepper(tokens, i).value < VocabSize
    {
      StepperAt(strategy, infer, exp, draw, tokens, i);
      ChoiceInVocabulary(strategy, infer(Window(tokens), |TakeLast(tokens, SequenceLength)| - 1), exp, draw(i));
    }
    RunSucceeds(prompt, n, stepper);
  }
  /**
   * `generateGPT2` as the client calls it: 100 steps of top-k with k = 40
   * from a non-empty prompt append 100 vocabulary tokens to the prompt.
   */
  lemma DefaultGeneration(prompt: seq<int>, infer: (seq<int>, int) -> seq<real>,
                          exp: real -> real, draw: nat -> real)
    requires forall x :: exp(x) > 0.0
    requires prompt != []
    requires forall w, row :: |infer(w, row)| == VocabSize
    ensures var r := Run(prompt, DefaultTokenCount, Stepper(DefaultStrategy, infer, exp, draw));
      && r.Ok?
      && |r.value| == |prompt| + DefaultTokenCount
      && r.value[..|prompt|] == prompt
      && forall i | |prompt| <= i < |r.value| :: 0 <= r.value[i] < VocabSize
  {
    var step := Stepper(DefaultStrategy, infer, exp, draw);
    GenerationSucceeds(prompt, DefaultTokenCount, DefaultStrategy, infer, exp, draw);
    RunShape(prompt, DefaultTokenCount, step);
  }
}
