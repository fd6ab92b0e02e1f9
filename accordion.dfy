/** The assembly of the accordion by `generate_accordion`: a wrapper `<div>`
    whose id carries the accordion's identifier, one Bootstrap accordion item
    per entry, and a closing `</div>`. Each entry's answer is converted line by
    line, then gets one thumbnail snippet per image url. */
module Accordion {
  import opened Text
  import opened Converter

  /** One accordion item as the user entered it: the question, the answer text
      as collected, and the image urls in the order given (none when the user
      answered that there are no images). */
  datatype Entry = Entry(question: string, answer: string, images: seq<string>)

  // ---------------------------------------------------------------------------
  // Images

  /** The snippet appended to an answer for one image url. */
  function ImageTag(url: string): string {
    "\n<br/><img class=\"img-thumbnail\" src=\"" + url + "\" alt=\"Image\" /><br />\n"
  }

  /** The snippets of `urls`, in order. */
  function ImageTags(urls: seq<string>): string
    decreases |urls|
  {
    if urls == [] then "" else ImageTags(urls[..|urls| - 1]) + ImageTag(urls[|urls| - 1])
  }

  /** The snippets of two runs of urls are the snippets of the first run
      followed by those of the second: each url adds its own snippet, in the
      order given, and nothing else. */
  lemma {:induction false} ImageTagsAppend(a: seq<string>, b: seq<string>)
    ensures ImageTags(a + b) == ImageTags(a) + ImageTags(b)
    decreases |b|
  {
    if b == [] {
      assert a + b == a;
    } else {
      var init, last := b[..|b| - 1], b[|b| - 1];
      assert (a + b)[..|a + b| - 1] == a + init;
      assert (a + b)[|a + b| - 1] == last;
      ImageTagsAppend(a, init);
      AppendAssoc(ImageTags(a), ImageTags(init), ImageTag(last));
    }
  }

  /** One url adds exactly its snippet. */
  lemma ImageTagsSingle(url: string)
    ensures ImageTags([url]) == ImageTag(url)
  {
    assert [url][..0] == [];
  }

  /** The image loop: `answer += snippet` for each url in turn. With no url the
      answer is left as it is. */
  method AppendImages(answer: string, urls: seq<string>) returns (r: string)
    ensures r == answer + ImageTags(urls)
    ensures urls == [] ==> r == answer
  {
    r := answer;
    for k := 0 to |urls|
      invariant r == answer + ImageTags(urls[..k])
    {
      var tag := ImageTag(urls[k]);
      assert urls[..k + 1][..k] == urls[..k];
      assert ImageTags(urls[..k + 1]) == ImageTags(urls[..k]) + tag;
      AppendAssoc(answer, ImageTags(urls[..k]), tag);
      r := r + tag;
    }
    assert urls[..|urls|] == urls;
  }

  // ---------------------------------------------------------------------------
  // One item

  function HeadingId(i: nat): string {
    "heading" + NatToString(i)
  }

  function CollapseId(i: nat): string {
    "collapse" + NatToString(i)
  }

  /** The class of the collapsible part: only the first item starts expanded. */
  function CollapseClass(i: nat): string {
    if i == 0 then "accordion-collapse collapse show" else "accordion-collapse collapse"
  }

  /** Item ids never collide: two indices give two heading ids and two
      collapse ids, and a heading id is never a collapse id. */
  lemma IdsDistinct(i: nat, j: nat)
    ensures i != j ==> HeadingId(i) != HeadingId(j) && CollapseId(i) != CollapseId(j)
    ensures HeadingId(i) != CollapseId(j)
  {
    NatToStringInjective(i, j);
    if HeadingId(i) == HeadingId(j) {
      assert NatToString(i) == HeadingId(i)[7..] == HeadingId(j)[7..] == NatToString(j);
    }
    if CollapseId(i) == CollapseId(j) {
      assert NatToString(i) == CollapseId(i)[8..] == CollapseId(j)[8..] == NatToString(j);
    }
    assert HeadingId(i)[0] == 'h' && CollapseId(j)[0] == 'c';
  }

  /** What fills the slots of one item's skeleton. */
  datatype ItemSlots = ItemSlots(headingId: string, targetId: string, collapseClass: string,
                                 question: string, answer: string)

  /** The fixed text of the item skeleton, cut at its nine slots. As the
      generator writes it, `aria-controls` names the heading id, not the
      collapsible part. */
  function ItemSkeleton(): seq<string> {
    [ "\n    <div class=\"accordion-item\">\n        <h2 class=\"accordion-header\" id=\"",
      "\">\n            <button class=\"accordion-button\" type=\"button\" data-bs-toggle=\"collapse\" data-bs-target=\"#",
      "\"\n                aria-expanded=\"true\" aria-controls=\"",
      "\">\n                ",
      "\n            </button>\n        </h2>\n        <div id=\"",
      "\" class=\"",
      "\" aria-labelledby=\"",
      "\"\n            data-bs-parent=\"#accordionParent",
      "\">\n            <div class=\"accordion-body\">\n                ",
      "\n            </div>\n        </div>\n    </div>\n" ]
  }

  /** What goes into the slots of the skeleton, in order. */
  function SlotValues(uniqueId: string, s: ItemSlots): (r: seq<string>)
    ensures |r| == 9
  {
    [s.headingId, s.targetId, s.headingId, s.question, s.targetId, s.collapseClass, s.headingId,
     uniqueId, s.answer]
  }

  /** A skeleton filled: its first piece, the first value, the next piece, and
      so on, ending with its last piece. */
  function Fill(pieces: seq<string>, values: seq<string>): string
    decreases |pieces|
  {
    if pieces == [] then ""
    else if values == [] || |pieces| == 1 then pieces[0]
    else pieces[0] + values[0] + Fill(pieces[1..], values[1..])
  }

  /** Each value lands between the pieces around it: filling a skeleton with
      one more value extends the text by that value and the next piece. */
  lemma {:induction false} FillSnoc(pieces: seq<string>, values: seq<string>, v: string, last: string)
    requires |pieces| == |values| + 1
    ensures Fill(pieces + [last], values + [v]) == Fill(pieces, values) + v + last
    decreases |values|
  {
    if values == [] {
      assert (pieces + [last])[1..] == [last];
    } else {
      assert (pieces + [last])[1..] == pieces[1..] + [last];
      assert (values + [v])[1..] == values[1..] + [v];
      FillSnoc(pieces[1..], values[1..], v, last);
      AppendAssoc(pieces[0] + values[0], Fill(pieces[1..], values[1..]) + v, last);
      AppendAssoc(pieces[0] + values[0], Fill(pieces[1..], values[1..]), v);
    }
  }

  /** The HTML of one item: `skeleton` filled with its slots. */
  function ItemHtml(skeleton: seq<string>, uniqueId: string, s: ItemSlots): string
  {
    Fill(skeleton, SlotValues(uniqueId, s))
  }

  /** What goes into the body of an item: the converted answer, then the image
      snippets. */
  function AnswerHtml(e: Entry): string {
    ConvertText(Full, e.answer) + ImageTags(e.images)
  }

  /** The body of every entry's item, in order. */
  function Bodies(entries: seq<Entry>): (r: seq<string>)
    ensures |r| == |entries|
  {
    seq(|entries|, k requires 0 <= k < |entries| => AnswerHtml(entries[k]))
  }

  /** The slots of the item at index `i`. */
  function SlotsAt(i: nat, question: string, body: string): ItemSlots {
    ItemSlots(HeadingId(i), CollapseId(i), CollapseClass(i), question, body)
  }

  // ---------------------------------------------------------------------------
  // The whole accordion

  /** The opening of the wrapper `<div>`. */
  function ParentOpen(uniqueId: string): string {
    "<div class=\"accordion\" id=\"accordionParent" + uniqueId + "\">\n"
  }

  /** The items of `entries`, each at its own index, with the given bodies. */
  function Items(entries: seq<Entry>, bodies: seq<string>): (r: seq<ItemSlots>)
    requires |bodies| == |entries|
    ensures |r| == |entries|
  {
    seq(|entries|, k requires 0 <= k < |entries| => SlotsAt(k, entries[k].question, bodies[k]))
  }

  /** The HTML of each item, in order. */
  function RenderItems(skeleton: seq<string>, uniqueId: string, items: seq<ItemSlots>): (r: seq<string>)
    ensures |r| == |items|
  {
    seq(|items|, k requires 0 <= k < |items| => ItemHtml(skeleton, uniqueId, items[k]))
  }

  /** The pieces `generate_accordion` collects: the wrapper opening, one item
      per entry, and the closing `</div>`. */
  function Pieces(skeleton: seq<string>, uniqueId: string, entries: seq<Entry>, bodies: seq<string>): seq<string>
    requires |bodies| == |entries|
  {
    [ParentOpen(uniqueId)] + RenderItems(skeleton, uniqueId, Items(entries, bodies)) + ["</div>"]
  }

  /** The accordion built on `skeleton`: the pieces joined. */
  function AccordionWith(skeleton: seq<string>, uniqueId: string, entries: seq<Entry>): string
  {
    Join(Pieces(skeleton, uniqueId, entries, Bodies(entries)), "")
  }

  /** The accordion the generator writes. */
  function AccordionHtml(uniqueId: string, entries: seq<Entry>): string {
    AccordionWith(ItemSkeleton(), uniqueId, entries)
  }

  /** One more entry adds its item, numbered by its position, at the end. */
  lemma ItemsSnoc(entries: seq<Entry>, bodies: seq<string>, e: Entry, body: string)
    requires |bodies| == |entries|
    ensures Items(entries + [e], bodies + [body]) ==
      Items(entries, bodies) + [SlotsAt(|entries|, e.question, body)]
  {
  }

  /** Rendering two runs of items renders each run in turn. */
  lemma RenderAppend(skeleton: seq<string>, uniqueId: string, a: seq<ItemSlots>, b: seq<ItemSlots>)
    ensures RenderItems(skeleton, uniqueId, a + b) ==
      RenderItems(skeleton, uniqueId, a) + RenderItems(skeleton, uniqueId, b)
  {
  }

  /** The bodies of two runs of entries are the bodies of each run in turn. */
  lemma BodiesAppend(a: seq<Entry>, b: seq<Entry>)
    ensures Bodies(a + b) == Bodies(a) + Bodies(b)
  {
  }

  /** In the accordion, the item at index `i` has the ids numbered `i`, the
      question of entry `i`, and as body that entry's converted answer
      followed by its image snippets. */
  lemma EntryBecomesItem(entries: seq<Entry>, i: nat)
    requires i < |entries|
    ensures Items(entries, Bodies(entries))[i] ==
      ItemSlots(HeadingId(i), CollapseId(i), CollapseClass(i), entries[i].question,
                ConvertText(Full, entries[i].answer) + ImageTags(entries[i].images))
  {
  }

  /** The ids of different items differ: no two items share a heading id or a
      collapse id, and no heading id is a collapse id. */
  lemma ItemIdsDistinct(entries: seq<Entry>, bodies: seq<string>, i: nat, j: nat)
    requires |bodies| == |entries| && i < |entries| && j < |entries|
    ensures i != j ==> Items(entries, bodies)[i].headingId != Items(entries, bodies)[j].headingId
    ensures i != j ==> Items(entries, bodies)[i].targetId != Items(entries, bodies)[j].targetId
    ensures Items(entries, bodies)[i].headingId != Items(entries, bodies)[j].targetId
  {
    IdsDistinct(i, j);
  }

  /** Exactly the first item starts expanded. */
  lemma OnlyFirstShown(entries: seq<Entry>, bodies: seq<string>, i: nat)
    requires |bodies| == |entries| && i < |entries|
    ensures Items(entries, bodies)[i].collapseClass == "accordion-collapse collapse show" <==> i == 0
    ensures Items(entries, bodies)[i].collapseClass == "accordion-collapse collapse" <==> i != 0
  {
  }

  /** The output is the wrapper opening, then the items in order, then `</div>`;
      with no entries it is just the opening and the closing. */
  lemma AccordionFrame(skeleton: seq<string>, uniqueId: string, entries: seq<Entry>)
    ensures AccordionWith(skeleton, uniqueId, entries) ==
      ParentOpen(uniqueId) + Join(RenderItems(skeleton, uniqueId, Items(entries, Bodies(entries))), "") + "</div>"
    ensures entries == [] ==> AccordionWith(skeleton, uniqueId, entries) == ParentOpen(uniqueId) + "</div>"
  {
    var items := RenderItems(skeleton, uniqueId, Items(entries, Bodies(entries)));
    ConcatSnoc([ParentOpen(uniqueId)] + items, "</div>");
    ConcatCons(ParentOpen(uniqueId), items);
  }

  /** With no images an item's body is just the converted answer. */
  lemma AnswerWithoutImages(e: Entry)
    requires e.images == []
    ensures AnswerHtml(e) == ConvertText(Full, e.answer)
  {
  }

  /** The body of the item loop: convert the answer, append its image
      snippets, work out the item's ids and class, and fill the skeleton. */
  method BuildItem(skeleton: seq<string>, uniqueId: string, i: nat, e: Entry) returns (item: string, body: string)
    ensures [body] == Bodies([e])
    ensures [item] == RenderItems(skeleton, uniqueId, [SlotsAt(i, e.question, body)])
  {
    body := ConvertAnswer(e.answer);
    body := AppendImages(body, e.images);
    var headingId := "heading" + NatToString(i);
    var targetId := "collapse" + NatToString(i);
    var collapseClass := if i == 0 then "accordion-collapse collapse show" else "accordion-collapse collapse";
    var slots := ItemSlots(headingId, targetId, collapseClass, e.question, body);
    assert slots == SlotsAt(i, e.question, body);
    item := Fill(skeleton, SlotValues(uniqueId, slots));
  }

  /** The loop of `generate_accordion` on a given item skeleton: start the
      pieces with the wrapper opening, append one item per entry, close the
      wrapper and join. */
  method Assemble(skeleton: seq<string>, uniqueId: string, entries: seq<Entry>) returns (html: string)
    ensures html == AccordionWith(skeleton, uniqueId, entries)
  {
    var content := [ParentOpen(uniqueId)];
    ghost var bodies: seq<string> := [];
    for i := 0 to |entries|
      invariant bodies == Bodies(entries[..i])
      invariant |bodies| == i
      invariant content == [ParentOpen(uniqueId)] + RenderItems(skeleton, uniqueId, Items(entries[..i], bodies))
    {
      var item, body := BuildItem(skeleton, uniqueId, i, entries[i]);
      var done := entries[..i];
      var slots := SlotsAt(i, entries[i].question, body);
      assert done + [entries[i]] == entries[..i + 1];
      BodiesAppend(done, [entries[i]]);
      ItemsSnoc(done, bodies, entries[i], body);
      RenderAppend(skeleton, uniqueId, Items(done, bodies), [slots]);
      SeqAssoc([ParentOpen(uniqueId)], RenderItems(skeleton, uniqueId, Items(done, bodies)), [item]);
      content := content + [item];
      bodies := bodies + [body];
    }
    assert entries[..|entries|] == entries;
    content := content + ["</div>"];
    html := Join(content, "");
  }

  /** `generate_accordion`: the accordion on the generator's item skeleton. */
  method GenerateAccordion(uniqueId: string, entries: seq<Entry>) returns (html: string)
    ensures html == AccordionHtml(uniqueId, entries)
  {
    html := Assemble(ItemSkeleton(), uniqueId, entries);
  }

  // ---------------------------------------------------------------------------
  // The identifier

  /** The accordion's identifier: the one entered, kept as typed, unless it is
      blank; then the first four characters of a freshly generated one. */
  function ChooseId(entered: string, generated: string): string {
    if Strip(entered) == "" then Take(generated, 4) else entered
  }

  /** A blank identifier (empty or all whitespace) is replaced by the first four
      characters of the generated one; any other is kept exactly as typed,
      surrounding whitespace included. */
  lemma ChooseIdSpec(entered: string, generated: string)
    ensures AllSpace(entered) ==> ChooseId(entered, generated) == Take(generated, 4)
    ensures AllSpace(entered) && |generated| >= 4 ==> ChooseId(entered, generated) == generated[..4]
    ensures !AllSpace(entered) ==> ChooseId(entered, generated) == entered
  {
    StripSpec(entered);
  }
}
