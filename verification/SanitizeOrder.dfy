// The numbering of pseudonyms: addresses in the order in which a session first mentions them.
module SanitizeOrder {
  import opened Bytes
  import opened Addresses
  import Remap
  import opened Sanitize

  /** The list holds each mentioned thing once, sorted by where it is mentioned first. */
  ghost predicate ByFirstMention<T(!new)>(order: seq<T>, mentions: seq<T>) {
    && (forall x :: x in order <==> x in mentions)
    && (forall i, j :: 0 <= i < j < |order| ==> MentionedBefore(order[i], order[j], mentions))
  }

  /** Some mention of x has no mention of y up to it. */
  ghost predicate MentionedBefore<T>(x: T, y: T, mentions: seq<T>) {
    exists p :: 0 <= p < |mentions| && mentions[p] == x && y !in mentions[..p + 1]
  }

  lemma StillBefore<T>(x: T, y: T, mentions: seq<T>, more: T)
    requires MentionedBefore(x, y, mentions)
    ensures MentionedBefore(x, y, mentions + [more])
  {
    var p :| 0 <= p < |mentions| && mentions[p] == x && y !in mentions[..p + 1];
    assert (mentions + [more])[..p + 1] == mentions[..p + 1];
  }

  lemma NewComesLast<T>(x: T, y: T, mentions: seq<T>)
    requires x in mentions && y !in mentions
    ensures MentionedBefore(x, y, mentions + [y])
  {
    var all := mentions + [y];
    var p :| 0 <= p < |mentions| && mentions[p] == x;
    assert all[..p + 1] == mentions[..p + 1] && all[p] == x;
  }

  /** One more mention. */
  lemma OneMoreMention<T(!new)>(order: seq<T>, mentions: seq<T>, x: T)
    requires ByFirstMention(order, mentions)
    ensures ByFirstMention(AddNew(order, x), mentions + [x])
  {
    var after, all := AddNew(order, x), mentions + [x];
    forall i, j | 0 <= i < j < |after| ensures MentionedBefore(after[i], after[j], all) {
      assert after[i] == order[i] && order[i] in mentions;
      if j < |order| {
        StillBefore(order[i], order[j], mentions, x);
      } else {
        NewComesLast(order[i], x, mentions);
      }
    }
    hide MentionedBefore;
  }

  /** Empty texts are not mentions. */
  function Mention(text: string): seq<string> { if text == "" then [] else [text] }

  lemma OneMoreText(order: seq<string>, mentions: seq<string>, text: string)
    requires ByFirstMention(order, mentions)
    ensures ByFirstMention(AddText(order, text), mentions + Mention(text))
  {
    if text == "" {
      assert mentions + [] == mentions;
    } else {
      OneMoreMention(order, mentions, text);
    }
    hide ByFirstMention, AddNew;
  }

  /** All MAC addresses in order, of each frame the destination first. */
  function MacMentions(packets: seq<Captured>): seq<bytes> {
    if packets == [] then []
    else
      var raw := packets[|packets| - 1].raw;
      MacMentions(packets[..|packets| - 1]) + if |raw| < 14 then [] else [raw[0..6]] + [raw[6..12]]
  }

  /** The addresses of an IPv4 header as texts, source first. */
  function HeaderMentions(raw: bytes): seq<string> {
    if |raw| >= 34 && raw[12..14] == [8, 0] then [Dotted(raw[26..30])] + [Dotted(raw[30..34])] else []
  }

  /** All address texts: of each packet those of its header, then its row's two. */
  function PacketMentions(packets: seq<Captured>): seq<string> {
    if packets == [] then []
    else
      var p := packets[|packets| - 1];
      PacketMentions(packets[..|packets| - 1]) + HeaderMentions(p.raw) + Mention(p.source) + Mention(p.destination)
  }

  function FlowMentions(flows: seq<Endpoints>): seq<string> {
    if flows == [] then []
    else
      var f := flows[|flows| - 1];
      FlowMentions(flows[..|flows| - 1]) + Mention(f.source) + Mention(f.destination)
  }

  lemma {:induction false} MacsByFirstMention(packets: seq<Captured>)
    ensures ByFirstMention(MacsOf(packets), MacMentions(packets))
  {
    hide ByFirstMention, AddNew;
    if packets == [] {
      NoMentions<bytes>();
    } else {
      var init, raw := packets[..|packets| - 1], packets[|packets| - 1].raw;
      MacsByFirstMention(init);
      if |raw| >= 14 {
        var met, said := MacsOf(init), MacMentions(init);
        OneMoreMention(met, said, raw[0..6]);
        OneMoreMention(AddNew(met, raw[0..6]), said + [raw[0..6]], raw[6..12]);
        assert said + ([raw[0..6]] + [raw[6..12]]) == said + [raw[0..6]] + [raw[6..12]];
        assert raw[..6] == raw[0..6];
      } else {
        assert MacMentions(init) + [] == MacMentions(init);
      }
    }
  }

  lemma NoMentions<T(!new)>()
    ensures ByFirstMention<T>([], [])
  {
  }

  lemma HeaderByFirstMention(order: seq<string>, mentions: seq<string>, raw: bytes)
    requires ByFirstMention(order, mentions)
    ensures ByFirstMention(AddHeader(order, raw), mentions + HeaderMentions(raw))
  {
    hide ByFirstMention, AddText;
    if |raw| >= 34 && raw[12] == 8 && raw[13] == 0 {
      assert raw[12..14] == [8, 0];
      var a, b := Dotted(raw[26..30]), Dotted(raw[30..34]);
      DottedIsText(raw[26..30]);
      DottedIsText(raw[30..34]);
      OneMoreText(order, mentions, a);
      OneMoreText(AddText(order, a), mentions + [a], b);
      assert mentions + ([a] + [b]) == mentions + [a] + [b];
    } else {
      assert |raw| >= 34 ==> raw[12..14] == [raw[12], raw[13]];
      assert mentions + [] == mentions;
    }
  }

  lemma DottedIsText(a: Remap.Ip4)
    ensures Dotted(a) != "" && Mention(Dotted(a)) == [Dotted(a)]
  {
    assert '.' in Dotted(a);
  }

  lemma {:induction false} TextsByFirstMention(packets: seq<Captured>)
    ensures ByFirstMention(TextsOf(packets), PacketMentions(packets))
  {
    hide ByFirstMention, AddText, AddHeader, HeaderMentions, Mention;
    if packets == [] {
      NoMentions<string>();
    } else {
      var init, p := packets[..|packets| - 1], packets[|packets| - 1];
      TextsByFirstMention(init);
      var met, said := AddHeader(TextsOf(init), p.raw), PacketMentions(init) + HeaderMentions(p.raw);
      HeaderByFirstMention(TextsOf(init), PacketMentions(init), p.raw);
      OneMoreText(met, said, p.source);
      OneMoreText(AddText(met, p.source), said + Mention(p.source), p.destination);
    }
  }

  lemma {:induction false} FlowsByFirstMention(met: seq<string>, said: seq<string>, flows: seq<Endpoints>)
    requires ByFirstMention(met, said)
    ensures ByFirstMention(AddFlows(met, flows), said + FlowMentions(flows))
  {
    hide ByFirstMention, AddText, Mention;
    if flows == [] {
      assert said + [] == said;
    } else {
      var init, f := flows[..|flows| - 1], flows[|flows| - 1];
      FlowsByFirstMention(met, said, init);
      var now, all := AddFlows(met, init), said + FlowMentions(init);
      OneMoreText(now, all, f.source);
      OneMoreText(AddText(now, f.source), all + Mention(f.source), f.destination);
      assert said + (FlowMentions(init) + Mention(f.source) + Mention(f.destination))
          == all + Mention(f.source) + Mention(f.destination);
    }
  }

  /**
    * The numbers of a session's pseudonyms are positions in lists that hold every address it mentions once, in
    * the order of first mention: packets before flows, a header's addresses before its row's, source before
    * destination; and for MAC addresses, where a frame has them, destination before source.
    */
  lemma NumberedByFirstMention(packets: seq<Captured>, flows: seq<Endpoints>)
    ensures ByFirstMention(MacsOf(packets), MacMentions(packets))
    ensures ByFirstMention(AddFlows(TextsOf(packets), flows), PacketMentions(packets) + FlowMentions(flows))
  {
    hide *;
    MacsByFirstMention(packets);
    TextsByFirstMention(packets);
    FlowsByFirstMention(TextsOf(packets), PacketMentions(packets), flows);
  }
}
