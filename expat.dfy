/** The XML parser seen from its handlers: a stream of tag and character-data events.
    Tag events carry the parser's CurrentByteIndex at the moment the handler runs,
    i.e. the offset of the first byte of that tag in the document. */
module Expat {

  type Attrs = map<string, string>

  datatype Event =
    | StartTag(name: string, attrs: Attrs, index: nat)
    | EndTag(name: string, index: nat)
    | CharData(data: string)

  /** Tag indices never go back: each is at least `from` (the index of the previous
      tag event) and at most `upto` (the number of bytes fed to the parser so far). */
  predicate Ordered(events: seq<Event>, from: nat, upto: nat)
  {
    from <= upto &&
    (events != [] ==>
      if events[0].CharData? then Ordered(events[1..], from, upto)
      else from <= events[0].index && Ordered(events[1..], events[0].index, upto))
  }

  /** CurrentByteIndex after the handlers of `events` have run. */
  function LastIndex(events: seq<Event>, from: nat): nat
  {
    if events == [] then from
    else LastIndex(events[1..], if events[0].CharData? then from else events[0].index)
  }

  lemma {:induction false} OrderedLastIndex(events: seq<Event>, from: nat, upto: nat)
    requires Ordered(events, from, upto)
    ensures from <= LastIndex(events, from) <= upto
  {
    if events != [] {
      OrderedLastIndex(events[1..], if events[0].CharData? then from else events[0].index, upto);
    }
  }

  lemma {:induction false} OrderedWiden(events: seq<Event>, from: nat, upto: nat, upto': nat)
    requires Ordered(events, from, upto) && upto <= upto'
    ensures Ordered(events, from, upto')
  {
    if events != [] {
      OrderedWiden(events[1..], if events[0].CharData? then from else events[0].index, upto, upto');
    }
  }
}
