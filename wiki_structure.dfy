/**
 * The structure-synthesis loop of the wiki generator (`call_llm_structure`):
 * the model is asked for chunks of the structure document until the
 * accumulated output holds the closing marker or the chunk budget is spent.
 */
module WikiStructure {
  import opened Text

  /** The closing marker that ends the loop; it is looked for case-sensitively. */
  const EndMarker := "</wiki_structure>"

  /** The fixed text that opens every continuation prompt. */
  const ContinuationHeader := "Continue writing the wiki structure XML based on the previous content:\n"

  /** How many trailing characters of the output a continuation prompt carries. */
  const ContextWindow := 500

  /**
   * The generative model with greedy decoding (`do_sample=False`): the prompt and
   * the `max_new_tokens` budget determine the chunk it returns.
   */
  type Model = (string, int) -> string

  /** One model call: the prompt sent and the chunk returned. */
  datatype Call = Call(prompt: string, chunk: string)

  /** The chunks of `calls`, concatenated in call order. */
  function Output(calls: seq<Call>): string {
    if calls == [] then "" else Output(calls[..|calls| - 1]) + calls[|calls| - 1].chunk
  }

  lemma {:induction false} OutputConcat(a: seq<Call>, b: seq<Call>)
    ensures Output(a + b) == Output(a) + Output(b)
    decreases |b|
  {
    if b != [] {
      assert (a + b)[..|a + b| - 1] == a + b[..|b| - 1];
      OutputConcat(a, b[..|b| - 1]);
    } else {
      assert a + b == a;
    }
  }

  /**
   * The prompt for every call after the first: the fixed header, then the last
   * 500 characters of the output so far with each line break turned into a space.
   */
  function ContinuationPrompt(acc: string): (p: string)
    ensures |p| == |ContinuationHeader| + Min(|acc|, ContextWindow)
    ensures p[..|ContinuationHeader|] == ContinuationHeader
    ensures '\n' !in p[|ContinuationHeader|..]
    ensures var tail := Last(acc, ContextWindow);
      forall i :: 0 <= i < |tail| ==> p[|ContinuationHeader| + i] == (if tail[i] == '\n' then ' ' else tail[i])
  {
    ContinuationHeader + ReplaceChar(Last(acc, ContextWindow), '\n', ' ')
  }

  /** `while chunk_count < max_chunks` runs no iteration for a negative budget. */
  function Budget(maxChunks: int): nat {
    if maxChunks < 0 then 0 else maxChunks
  }

  /**
   * The calls the loop makes from a state where `prompt` is about to be sent,
   * `acc` has been accumulated and `budget` iterations remain.
   */
  function Calls(model: Model, chunkSize: int, prompt: string, acc: string, budget: nat): seq<Call>
    decreases budget
  {
    if budget == 0 then []
    else
      var chunk := model(prompt, chunkSize);
      var acc' := acc + chunk;
      if Contains(acc', EndMarker) then [Call(prompt, chunk)]
      else [Call(prompt, chunk)] + Calls(model, chunkSize, ContinuationPrompt(acc'), acc', budget - 1)
  }

  /**
   * `call_llm_structure(prompt, chunk_size, max_chunks)`: the stripped
   * concatenation of every chunk the loop received.
   */
  method CallLlmStructure(model: Model, prompt: string, chunkSize: int := 4096, maxChunks: int := 5)
    returns (r: string)
    ensures r == Strip(Output(Calls(model, chunkSize, prompt, "", Budget(maxChunks))))
  {
    var fullOutput := "";
    var remainingPrompt := prompt;
    var chunkCount := 0;
    ghost var made: seq<Call> := [];
    ghost var all := Calls(model, chunkSize, prompt, "", Budget(maxChunks));
    while chunkCount < maxChunks
      invariant 0 <= chunkCount <= Budget(maxChunks)
      invariant fullOutput == Output(made)
      invariant made + Calls(model, chunkSize, remainingPrompt, fullOutput, Budget(maxChunks) - chunkCount) == all
    {
      ghost var rest := Calls(model, chunkSize, remainingPrompt, fullOutput, Budget(maxChunks) - chunkCount);
      var chunk := model(remainingPrompt, chunkSize);
      fullOutput := fullOutput + chunk;
      chunkCount := chunkCount + 1;
      made := made + [Call(remainingPrompt, chunk)];
      if Contains(fullOutput, EndMarker) {
        assert rest == [Call(remainingPrompt, chunk)];
        assert made == all;
        break;
      }
      remainingPrompt := ContinuationPrompt(fullOutput);
      assert made + Calls(model, chunkSize, remainingPrompt, fullOutput, Budget(maxChunks) - chunkCount) == all;
    }
    assert made == all;
    r := Strip(fullOutput);
  }

  /** The loop calls the model at most `max_chunks` times, and at least once when it may. */
  lemma {:induction false} CallsWithinBudget(model: Model, chunkSize: int, prompt: string, acc: string, budget: nat)
    ensures |Calls(model, chunkSize, prompt, acc, budget)| <= budget
    ensures budget > 0 ==> |Calls(model, chunkSize, prompt, acc, budget)| >= 1
    decreases budget
  {
    if budget > 0 {
      var chunk := model(prompt, chunkSize);
      if !Contains(acc + chunk, EndMarker) {
        CallsWithinBudget(model, chunkSize, ContinuationPrompt(acc + chunk), acc + chunk, budget - 1);
      }
    }
  }

  /** No output before the last of `cs` holds the marker. */
  predicate NoEarlyMarker(acc: string, cs: seq<Call>) {
    forall k :: 1 <= k < |cs| ==> !Contains(acc + Output(cs[..k]), EndMarker)
  }

  /** The output after any call but the last lacks the marker: the loop stops at the first one that holds it. */
  lemma {:induction false} CallsStopAtMarker(model: Model, chunkSize: int, prompt: string, acc: string, budget: nat)
    ensures NoEarlyMarker(acc, Calls(model, chunkSize, prompt, acc, budget))
    decreases budget
  {
    var cs := Calls(model, chunkSize, prompt, acc, budget);
    if budget > 0 {
      var first := Call(prompt, model(prompt, chunkSize));
      var acc' := acc + first.chunk;
      if !Contains(acc', EndMarker) {
        var rest := Calls(model, chunkSize, ContinuationPrompt(acc'), acc', budget - 1);
        assert cs == [first] + rest;
        CallsStopAtMarker(model, chunkSize, ContinuationPrompt(acc'), acc', budget - 1);
        forall k | 1 <= k < |cs|
          ensures !Contains(acc + Output(cs[..k]), EndMarker)
        {
          OutputStep(acc, first, rest, k);
          if k == 1 {
            assert rest[..0] == [];
            assert acc' + Output(rest[..0]) == acc';
          } else {
            assert 1 <= k - 1 < |rest|;
          }
        }
      }
    }
  }

  /** A run that stops before the budget is spent ends with the marker in its output. */
  lemma {:induction false} CallsEarlyStopHasMarker(model: Model, chunkSize: int, prompt: string, acc: string, budget: nat)
    ensures var cs := Calls(model, chunkSize, prompt, acc, budget);
      |cs| < budget ==> Contains(acc + Output(cs), EndMarker)
    decreases budget
  {
    var cs := Calls(model, chunkSize, prompt, acc, budget);
    if budget > 0 {
      var first := Call(prompt, model(prompt, chunkSize));
      var acc' := acc + first.chunk;
      if !Contains(acc', EndMarker) {
        var rest := Calls(model, chunkSize, ContinuationPrompt(acc'), acc', budget - 1);
        assert cs == [first] + rest;
        CallsEarlyStopHasMarker(model, chunkSize, ContinuationPrompt(acc'), acc', budget - 1);
        OutputStep(acc, first, rest, |cs|);
        assert cs[..|cs|] == cs;
        assert rest[..|rest|] == rest;
      } else {
        OutputStep(acc, first, [], 1);
        assert cs[..1] == cs;
        assert acc + Output(cs) == acc';
      }
    }
  }

  /** The output of the first `k` calls of `[first] + rest`, seen from after `first`. */
  lemma OutputStep(acc: string, first: Call, rest: seq<Call>, k: nat)
    requires 1 <= k <= 1 + |rest|
    ensures ([first] + rest)[..k] == [first] + rest[..k - 1]
    ensures acc + Output(([first] + rest)[..k]) == (acc + first.chunk) + Output(rest[..k - 1])
  {
    assert ([first] + rest)[..k] == [first] + rest[..k - 1];
    OutputConcat([first], rest[..k - 1]);
    assert [first][..0] == [];
  }

  /**
   * The first call sends the caller's prompt; every later call sends the
   * continuation prompt built from all the output received before it.
   */
  lemma {:induction false} CallsPrompts(model: Model, chunkSize: int, prompt: string, acc: string, budget: nat)
    ensures var cs := Calls(model, chunkSize, prompt, acc, budget);
      |cs| > 0 ==> cs[0].prompt == prompt
    ensures var cs := Calls(model, chunkSize, prompt, acc, budget);
      forall k :: 1 <= k < |cs| ==> cs[k].prompt == ContinuationPrompt(acc + Output(cs[..k]))
    decreases budget
  {
    var cs := Calls(model, chunkSize, prompt, acc, budget);
    if budget > 0 {
      var first := Call(prompt, model(prompt, chunkSize));
      var acc' := acc + first.chunk;
      if !Contains(acc', EndMarker) {
        var rest := Calls(model, chunkSize, ContinuationPrompt(acc'), acc', budget - 1);
        assert cs == [first] + rest;
        CallsPrompts(model, chunkSize, ContinuationPrompt(acc'), acc', budget - 1);
        ConsPrompts(acc, first, rest);
      }
    }
  }

  /** Prompts built from the output so far stay so when one more call goes in front. */
  lemma ConsPrompts(acc: string, first: Call, rest: seq<Call>)
    requires |rest| > 0 ==> rest[0].prompt == ContinuationPrompt(acc + first.chunk)
    requires forall k :: 1 <= k < |rest| ==> rest[k].prompt == ContinuationPrompt(acc + first.chunk + Output(rest[..k]))
    ensures forall k :: 1 <= k < |[first] + rest| ==>
      ([first] + rest)[k].prompt == ContinuationPrompt(acc + Output(([first] + rest)[..k]))
  {
    var cs := [first] + rest;
    forall k | 1 <= k < |cs|
      ensures cs[k].prompt == ContinuationPrompt(acc + Output(cs[..k]))
    {
      OutputStep(acc, first, rest, k);
      assert cs[k] == rest[k - 1];
      if k == 1 {
        assert rest[..0] == [];
      }
    }
  }

  /** Every chunk of `cs` is what the model returns for that call's prompt and `chunkSize`. */
  predicate ChunksFromModel(model: Model, chunkSize: int, cs: seq<Call>) {
    forall k :: 0 <= k < |cs| ==> cs[k].chunk == model(cs[k].prompt, chunkSize)
  }

  /** Every chunk is what the model returned for that call's prompt and the fixed token budget. */
  lemma {:induction false} CallsChunks(model: Model, chunkSize: int, prompt: string, acc: string, budget: nat)
    ensures ChunksFromModel(model, chunkSize, Calls(model, chunkSize, prompt, acc, budget))
    decreases budget
  {
    var cs := Calls(model, chunkSize, prompt, acc, budget);
    if budget > 0 {
      var first := Call(prompt, model(prompt, chunkSize));
      var acc' := acc + first.chunk;
      if !Contains(acc', EndMarker) {
        var rest := Calls(model, chunkSize, ContinuationPrompt(acc'), acc', budget - 1);
        assert cs == [first] + rest;
        CallsChunks(model, chunkSize, ContinuationPrompt(acc'), acc', budget - 1);
        forall k | 0 <= k < |cs|
          ensures cs[k].chunk == model(cs[k].prompt, chunkSize)
        {
          if k > 0 {
            assert cs[k] == rest[k - 1];
          }
        }
      }
    }
  }
}
