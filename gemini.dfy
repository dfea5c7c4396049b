/**
 * The AI query service (services/geminiService.ts): the serialisation of the
 * product data into the prompt's context block, and the branching of
 * `getAiAssistedAnswer` around the text-generation call, which is the
 * parameter `generate(model, prompt)`.
 */
module Gemini {
  import opened Wrappers
  import opened Types
  import opened Text

  lemma OccursAtChar(s: string, c: char, i: int)
    ensures OccursAt(s, [c], i) <==> 0 <= i < |s| && s[i] == c
  {
    if 0 <= i < |s| {
      assert s[i..i + 1] == [s[i]];
    }
  }

  /** `sub` sits in `a + sub + b` right after `a`. */
  lemma ContainsMiddle(a: string, sub: string, b: string)
    ensures Contains(a + sub + b, sub)
  {
    assert (a + sub + b)[|a|..|a| + |sub|] == sub;
    OccursAtContains(a + sub + b, sub, |a|);
  }

  /** `date.split('T')[0]`: the text before the first `T`, or all of it. */
  function DatePart(date: string): (d: string)
    ensures |d| <= |date| && d == date[..|d|]
    ensures 'T' !in d
    ensures |d| == |date| || date[|d|] == 'T'
  {
    SplitFirst(date, "T");
    var parts := Split(date, "T");
    match IndexOf(date, "T")
    case None =>
      assert 'T' !in date by {
        forall i | 0 <= i < |date| ensures date[i] != 'T' {
          OccursAtChar(date, 'T', i);
        }
      }
      parts[0]
    case Some(k) =>
      OccursAtChar(date, 'T', k);
      assert 'T' !in date[..k] by {
        forall i | 0 <= i < k ensures date[i] != 'T' {
          OccursAtChar(date, 'T', i);
        }
      }
      parts[0]
  }

  /** One change as a prompt line. */
  function ChangeLine(c: Change): (line: string)
    ensures StartsWith(line, "- (" + DatePart(c.date) + ", " + TypeName(c.kind) + "): ")
    ensures |c.description| <= |line| && line[|line| - |c.description|..] == c.description
    ensures |line| == |"- (" + DatePart(c.date) + ", " + TypeName(c.kind) + "): "| + |c.description|
  {
    "- (" + DatePart(c.date) + ", " + TypeName(c.kind) + "): " + c.description
  }

  function ChangeLines(cs: seq<Change>): (lines: seq<string>)
    ensures |lines| == |cs| && forall i :: 0 <= i < |cs| ==> lines[i] == ChangeLine(cs[i])
  {
    seq(|cs|, i requires 0 <= i < |cs| => ChangeLine(cs[i]))
  }

  /** One product's block: its name line, then its change lines. */
  function ProductBlock(p: Product): (block: string)
    ensures StartsWith(block, "Product: " + p.name + "\n")
    ensures p.changes == [] ==> block == "Product: " + p.name + "\n"
  {
    "Product: " + p.name + "\n" + Join(ChangeLines(p.changes), "\n")
  }

  /** A product with one change: its name line, then that change's line. */
  lemma ProductBlockSingle(p: Product, c: Change)
    ensures ProductBlock(p.(changes := [c])) == "Product: " + p.name + "\n" + ChangeLine(c)
  {
    assert ChangeLines([c]) == [ChangeLine(c)];
  }

  /** One more change appends a line break and that change's line: the change
      lines appear once each, in order, one per line. */
  lemma ProductBlockSnoc(p: Product, c: Change)
    requires p.changes != []
    ensures ProductBlock(p.(changes := p.changes + [c])) == ProductBlock(p) + "\n" + ChangeLine(c)
  {
    assert ChangeLines(p.changes + [c]) == ChangeLines(p.changes) + [ChangeLine(c)];
    JoinSnoc(ChangeLines(p.changes), ChangeLine(c), "\n");
  }

  function ProductBlocks(ps: seq<Product>): (blocks: seq<string>)
    ensures |blocks| == |ps| && forall i :: 0 <= i < |ps| ==> blocks[i] == ProductBlock(ps[i])
  {
    seq(|ps|, i requires 0 <= i < |ps| => ProductBlock(ps[i]))
  }

  /** `formatProductDataForPrompt`: the blocks in input order, separated by a blank line. */
  function FormatProductData(ps: seq<Product>): (r: string)
    ensures ps == [] ==> r == ""
    ensures |ps| == 1 ==> r == ProductBlock(ps[0])
  {
    Join(ProductBlocks(ps), "\n\n")
  }

  /** One more product appends a blank line and its block: the blocks appear
      once each, in input order, separated by a blank line. */
  lemma FormatSnoc(ps: seq<Product>, p: Product)
    requires ps != []
    ensures FormatProductData(ps + [p]) == FormatProductData(ps) + "\n\n" + ProductBlock(p)
  {
    assert ProductBlocks(ps + [p]) == ProductBlocks(ps) + [ProductBlock(p)];
    JoinSnoc(ProductBlocks(ps), ProductBlock(p), "\n\n");
  }

  /** Every part of a join occurs in it. */
  lemma {:induction false} JoinContainsPart(parts: seq<string>, sep: string, i: nat)
    requires i < |parts|
    ensures Contains(Join(parts, sep), parts[i])
    decreases |parts|
  {
    if |parts| == 1 {
      assert Join(parts, sep) == "" + parts[0] + "";
      ContainsMiddle("", parts[0], "");
    } else if i == 0 {
      ContainsMiddle("", parts[0], sep + Join(parts[1..], sep));
      assert Join(parts, sep) == "" + parts[0] + (sep + Join(parts[1..], sep));
    } else {
      JoinContainsPart(parts[1..], sep, i - 1);
      var rest := Join(parts[1..], sep);
      var k := IndexOf(rest, parts[i]).value;
      var pre := parts[0] + sep;
      assert Join(parts, sep) == pre + rest;
      OccursInSuffix(pre + rest, parts[i], |pre|, k) by {
        assert (pre + rest)[|pre|..] == rest;
      }
      OccursAtContains(pre + rest, parts[i], |pre| + k);
    }
  }

  /** Every product's block appears in the formatted context. */
  lemma FormatContainsEveryProduct(ps: seq<Product>, i: nat)
    requires i < |ps|
    ensures Contains(FormatProductData(ps), ProductBlock(ps[i]))
  {
    JoinContainsPart(ProductBlocks(ps), "\n\n", i);
  }

  /** Splitting a join on a one-character separator that no part contains
      gives back the parts. */
  lemma {:induction false} SplitJoinChar(parts: seq<string>, c: char)
    requires |parts| >= 1
    requires forall i :: 0 <= i < |parts| ==> c !in parts[i]
    ensures Split(Join(parts, [c]), [c]) == parts
    decreases |parts|
  {
    var s := Join(parts, [c]);
    if |parts| == 1 {
      forall i | 0 <= i ensures !OccursAt(s, [c], i) {
        OccursAtChar(s, c, i);
      }
    } else {
      var rest := parts[1..];
      SplitJoinChar(rest, c);
      var first := parts[0];
      assert s == first + [c] + Join(rest, [c]);
      OccursAtChar(s, c, |first|);
      forall i | 0 <= i < |first| ensures !OccursAt(s, [c], i) {
        OccursAtChar(s, c, i);
        assert s[i] == first[i];
      }
      assert IndexOf(s, [c]) == Some(|first|);
      assert s[..|first|] == first;
      assert s[|first| + 1..] == Join(rest, [c]);
      assert parts == [first] + rest;
    }
  }

  /** The block reads back line by line when the name and change texts hold no newline. */
  lemma ProductBlockLines(p: Product)
    requires '\n' !in p.name
    requires forall i :: 0 <= i < |p.changes| ==> '\n' !in ChangeLine(p.changes[i])
    ensures Split(ProductBlock(p), "\n")
         == ["Product: " + p.name] + (if p.changes == [] then [""] else ChangeLines(p.changes))
  {
    var lines := ChangeLines(p.changes);
    var head := "Product: " + p.name;
    if lines == [] {
      assert ProductBlock(p) == Join([head, ""], "\n");
      SplitJoinChar([head, ""], '\n');
    } else {
      assert Join([head] + lines, "\n") == head + "\n" + Join(lines, "\n") by {
        JoinCons(head, lines, "\n");
      }
      SplitJoinChar([head] + lines, '\n');
    }
  }

  const ModelName: string := "gemini-2.5-flash"
  const ErrorMessage: string := "Could not get an answer from the Gemini API."

  /** The outcome of the text-generation call. */
  datatype Reply = Replied(text: string) | CallFailed(error: string)

  /** The promise `getAiAssistedAnswer` returns: resolved with text or rejected with an error message. */
  datatype Answer = Resolved(text: string) | Rejected(message: string)

  const MockPrefix: string := "This is a mock AI response for your query: \""
  const MockSuffix: string := "\". To get real answers, please ensure your API key is configured correctly. For example, I could tell you about the latest security updates or new features in Preview."

  /** The canned answer used when no API key is configured; it quotes the query. */
  function MockAnswer(query: string): (r: string)
    ensures Contains(r, query)
  {
    ContainsMiddle(MockPrefix, query, MockSuffix);
    MockPrefix + query + MockSuffix
  }

  const PromptHead: string :=
    "\n    You are an expert Google Cloud release notes assistant. Your task is to answer the user's question based *only* on the provided release note data."
    + "\n    Do not use any external knowledge."
    + "\n    Format your answer clearly using Markdown (e.g., lists, bold text) to make it easy to read."
    + "\n    If the data does not contain an answer to the question, politely state that you couldn't find the information in the recent release notes."
    + "\n\n    Here is the release note data:\n    ---\n    "
  const PromptMiddle: string := "\n    ---\n\n    User's question: \""
  const PromptTail: string := "\"\n  "

  /** The prompt: the fixed instructions, the context block, then the quoted question. */
  function Prompt(context: string, query: string): (r: string)
    ensures Contains(r, context) && Contains(r, query)
  {
    ContainsMiddle(PromptHead, context, PromptMiddle + query + PromptTail);
    assert PromptHead + context + PromptMiddle + query + PromptTail
        == PromptHead + context + (PromptMiddle + query + PromptTail);
    ContainsMiddle(PromptHead + context + PromptMiddle, query, PromptTail);
    PromptHead + context + PromptMiddle + query + PromptTail
  }

  /** The API key counts as missing when unset or empty. */
  predicate KeyMissing(apiKey: Option<string>) {
    apiKey.None? || apiKey.value == ""
  }

  /** `getAiAssistedAnswer(query, products)`. */
  function GetAiAssistedAnswer(apiKey: Option<string>, query: string, products: seq<Product>,
                               generate: (string, string) -> Reply): (r: Answer)
    ensures KeyMissing(apiKey) ==> r == Resolved(MockAnswer(query)) && Contains(r.text, query)
    ensures !KeyMissing(apiKey) && generate(ModelName, Prompt(FormatProductData(products), query)).CallFailed?
      ==> r == Rejected(ErrorMessage)
    ensures !KeyMissing(apiKey) && generate(ModelName, Prompt(FormatProductData(products), query)).Replied?
      ==> r == Resolved(generate(ModelName, Prompt(FormatProductData(products), query)).text)
  {
    if KeyMissing(apiKey) then Resolved(MockAnswer(query))
    else
      match generate(ModelName, Prompt(FormatProductData(products), query))
      case Replied(text) => Resolved(text)
      case CallFailed(_) => Rejected(ErrorMessage)
  }

  /** Without a key the model is never consulted: the answer is the same whatever it would say. */
  lemma MockIgnoresModel(apiKey: Option<string>, query: string, products: seq<Product>,
                         g1: (string, string) -> Reply, g2: (string, string) -> Reply)
    requires KeyMissing(apiKey)
    ensures GetAiAssistedAnswer(apiKey, query, products, g1) == GetAiAssistedAnswer(apiKey, query, products, g2)
    ensures GetAiAssistedAnswer(apiKey, query, products, g1) == Resolved(MockAnswer(query))
  {
  }
}
