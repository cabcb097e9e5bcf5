/** Editing the player's name on the name screen (`name_input`,
    PYGAME_312.py lines 117-126). */
module NameEntry {

  import opened Wrappers
  import opened Screens

  /** A name grows only while it is shorter than this. */
  const MaxNameLength: nat := 15

  /** `player_name[:-1]`: the name without its last character; the empty
      name stays empty. */
  function DropLast(name: string): (r: string)
    ensures |name| == 0 ==> r == ""
    ensures |name| > 0 ==> r + [name[|name| - 1]] == name
  {
    if |name| == 0 then name else name[..|name| - 1]
  }

  /** What one event does to `player_name`: Backspace drops the last
      character; any other key than Return, Backspace and Escape appends its
      text while the name is shorter than 15; nothing else edits it. */
  function Edit(name: string, e: Event): (r: string)
    ensures NameExit(e).Some? ==> r == name
    ensures e.KeyDown? && e.key == Backspace ==> r == DropLast(name)
    ensures e.KeyDown? && e.key == OtherKey && |name| < MaxNameLength ==> r == name + e.unicode
    ensures e.KeyDown? && e.key == OtherKey && |name| >= MaxNameLength ==> r == name
    ensures !e.KeyDown? ==> r == name
    ensures e.KeyDown? && |e.unicode| <= 1 && |name| <= MaxNameLength ==> |r| <= MaxNameLength
    ensures |r| > |name| ==> |name| < MaxNameLength && e.KeyDown? && e.key == OtherKey && r == name + e.unicode
  {
    match e
    case KeyDown(Backspace, _) => DropLast(name)
    case KeyDown(OtherKey, text) =>
      if |name| < MaxNameLength then name + text else name
    case _ => name
  }

  /** Every key event carries at most one character of text. */
  predicate SingleChars(events: seq<Event>)
  {
    forall k :: 0 <= k < |events| ==> events[k].KeyDown? ==> |events[k].unicode| <= 1
  }

  lemma SingleCharsSlice(events: seq<Event>, from: nat, to: nat)
    requires from <= to <= |events| && SingleChars(events)
    ensures SingleChars(events[from..to])
  {
    forall k | 0 <= k < to - from
      ensures events[from..to][k].KeyDown? ==> |events[from..to][k].unicode| <= 1
    {
      assert events[from..to][k] == events[from + k];
    }
  }

  /** `e` is a press of `key`. */
  predicate IsKey(e: Event, key: Key)
  {
    e.KeyDown? && e.key == key
  }

  /** The name after a run of events. */
  function TypeKeys(name: string, events: seq<Event>): string
    decreases |events|
  {
    if events == [] then name else TypeKeys(Edit(name, events[0]), events[1..])
  }

  /** Without a typing key among the events, the name never grows. */
  lemma {:induction false} TypeKeysNeverGrowsUntyped(name: string, events: seq<Event>)
    requires forall k :: 0 <= k < |events| ==> !IsKey(events[k], OtherKey)
    ensures |TypeKeys(name, events)| <= |name|
    decreases |events|
  {
    if events != [] {
      TypeKeysNeverGrowsUntyped(Edit(name, events[0]), events[1..]);
    }
  }

  /** Without a Backspace among the events, the name keeps what it had as a
      prefix: keys only append. */
  lemma {:induction false} TypeKeysKeepsPrefix(name: string, events: seq<Event>)
    requires forall k :: 0 <= k < |events| ==> !IsKey(events[k], Backspace)
    ensures name <= TypeKeys(name, events)
    decreases |events|
  {
    if events != [] {
      TypeKeysKeepsPrefix(Edit(name, events[0]), events[1..]);
    }
  }

  /** If every key event carries at most one character, no run of events
      takes the name past 15 characters. */
  lemma {:induction false} TypeKeysBounded(name: string, events: seq<Event>)
    requires SingleChars(events) && |name| <= MaxNameLength
    ensures |TypeKeys(name, events)| <= MaxNameLength
    decreases |events|
  {
    if events != [] {
      SingleCharsSlice(events, 1, |events|);
      TypeKeysBounded(Edit(name, events[0]), events[1..]);
    }
  }

  lemma {:induction false} TypeKeysLast(name: string, events: seq<Event>, e: Event)
    ensures TypeKeys(name, events + [e]) == Edit(TypeKeys(name, events), e)
    decreases |events|
  {
    if events == [] {
      assert [e][1..] == [];
    } else {
      assert (events + [e])[1..] == events[1..] + [e];
      TypeKeysLast(Edit(name, events[0]), events[1..], e);
    }
  }

  /** Backspace on the empty name leaves it empty. */
  lemma BackspaceOnEmpty(text: string)
    ensures Edit("", KeyDown(Backspace, text)) == ""
  {
  }

  /** Return and Escape leave the screen for the menu and keep the name. */
  lemma ReturnAndEscapeKeepName(name: string, key: Key, text: string)
    requires key == Return || key == Escape
    ensures NameExit(KeyDown(key, text)) == Some(GoTo(Menu))
    ensures Edit(name, KeyDown(key, text)) == name
  {
  }
}
