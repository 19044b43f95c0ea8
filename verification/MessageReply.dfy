/** What is sent of a reply (packages/channel-runtime/src/core.ts:1141-1150). */
module MessageReply {
  import opened MessageLines
  import opened MessagePolish
  import opened MessageSplit
  import opened Texts

  /** From the k-th message on, the messages one after the other. */
  function ConcatFrom(out: seq<Text>, k: nat): Text
    requires k <= |out|
    decreases |out| - k
  {
    if k == |out| then [] else out[k] + ConcatFrom(out, k + 1)
  }

  lemma {:induction false} WovenInk(out: seq<Text>, separators: seq<Text>, k: nat)
    requires |separators| == |out| && k <= |out|
    requires forall i :: 0 <= i < |out| ==> separators[i] in {[], [NL], [NL, NL]}
    ensures Ink(Woven(out, separators, k)) == Ink(ConcatFrom(out, k))
    decreases |out| - k
  {
    hide Ink;
    if k < |out| {
      WovenInk(out, separators, k + 1);
      SeparatedInk(out[k], separators[k], Woven(out, separators, k + 1));
      InkPlus(out[k], ConcatFrom(out, k + 1));
    }
  }

  lemma SeparatedInk(first: Text, separator: Text, rest: Text)
    requires separator in {[], [NL], [NL, NL]}
    ensures Ink(first + separator + rest) == Ink(first) + Ink(rest)
  {
    hide Ink;
    SeparatorInk(separator);
    InkPlus(first + separator, rest);
    InkPlus(first, separator);
  }

  lemma SeparatorInk(separator: Text)
    requires separator in {[], [NL], [NL, NL]}
    ensures Ink(separator) == []
  {
    TwoBreaksInk([]);
    assert [NL, NL] + [] == [NL, NL];
  }

  lemma SameCount(text: Text, out: seq<Text>, spans: seq<Span>)
    requires Wrote(text, out, spans)
    ensures |out| == |spans|
  {
  }

  lemma CuttingInk(text: Text, limit: int, out: seq<Text>, spans: seq<Span>)
    requires Cutting(text, limit, spans) && Wrote(text, out, spans)
    ensures Ink(ConcatFrom(out, 0)) == Ink(text)
  {
    hide Cutting, Wrote, Separators, Ink;
    MessagesRebuildTheText(text, limit, out, spans);
    SameCount(text, out, spans);
    WovenInk(out, Separators(text, spans), 0);
  }

  /** What is sent of a reply: nothing when it has no ink, and otherwise the one cutting of what it is polished
      to; either way the messages carry the reply's ink, in order and no more. */
  method ReplyMessages(reply: Text, limit: int) returns (out: seq<Text>, ghost polished: Text, ghost spans: seq<Span>)
    requires limit >= 1
    ensures Bounded(out, limit) && PolishesTo(reply, polished)
    ensures out == [] <==> !HasInk(reply)
    ensures out != [] ==> Cutting(polished, limit, spans) && Wrote(polished, out, spans)
    ensures Ink(ConcatFrom(out, 0)) == Ink(reply)
  {
    hide PolishText, Ink, Cutting, Wrote, Tidy, Polished, CleanLines, HasInk;
    var text := PolishText(reply);
    polished := text;
    PolishKeepsLines(reply);
    InkIsKept(reply);
    InkPolishes(reply);
    out, spans := [], [];
    if text != [] {
      PolishedText(reply);
      PolishedIsTidy(text);
      out, spans := SplitText(text, limit);
      CuttingInk(text, limit, out, spans);
      CuttingHasMessages(text, limit, out, spans);
    }
  }

  lemma InkPolishes(text: Text)
    ensures PolishText(text) == [] <==> !HasInk(text)
  {
    hide PolishText, HasInk;
    NoInkIsEmpty(text);
    InkIsKept(text);
    if !HasInk(text) {
      NoInkPolishes(text);
    }
  }

  lemma CuttingHasMessages(text: Text, limit: int, out: seq<Text>, spans: seq<Span>)
    requires Cutting(text, limit, spans) && Wrote(text, out, spans)
    ensures out != []
  {
  }
}
