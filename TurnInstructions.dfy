/**
 * The turn-by-turn list of the navigation screen (`TurnInstructionsAdapter`): the route's steps,
 * the position of the highlighted step, and the notifications the adapter sends to its
 * RecyclerView when either changes. Each row shows the step's text, a turn icon chosen from
 * the text, and a highlighted background for the highlighted position.
 */
module TurnInstructions {

  /** One step of a route, as the routing service returns it (`RouteStep`). */
  datatype RouteStep = RouteStep(instruction: string, name: string, wayPoints: seq<int>)

  /** `R.drawable.ic_turn_left`, `ic_turn_right`, `ic_turn_straight`. */
  datatype TurnIcon = TurnLeft | TurnRight | TurnStraight

  /** `notifyDataSetChanged()` and `notifyItemChanged(position)`. */
  datatype Notification = DataSetChanged | ItemChanged(position: int)

  /** What `bind` puts on screen for one row. */
  datatype Row = Row(text: string, icon: TurnIcon, highlighted: bool)

  function LowerChar(c: char): char
  {
    if 'A' <= c <= 'Z' then (c as int + 32) as char else c
  }

  function Lower(s: string): string
  {
    seq(|s|, k requires 0 <= k < |s| => LowerChar(s[k]))
  }

  /** `text.contains(word, ignoreCase = true)`: some window of the text equals the word up to
      case. */
  predicate ContainsIgnoreCase(text: string, word: string)
  {
    exists k :: 0 <= k <= |text| - |word| && MatchesAt(text, word, k)
  }

  /** The word sits in the text at index `k`, up to case. */
  predicate MatchesAt(text: string, word: string, k: int)
  {
    0 <= k <= |text| - |word| && Lower(text[k..k + |word|]) == Lower(word)
  }

  /** The turn icon `bind` picks: "left" is tested first, then "right". */
  function IconFor(instruction: string): TurnIcon
  {
    if ContainsIgnoreCase(instruction, "left") then TurnLeft
    else if ContainsIgnoreCase(instruction, "right") then TurnRight
    else TurnStraight
  }

  /** A text with "left" in it, in any case, shows the left icon, whatever else it says:
      "Turn RIGHT, then left" still shows the left icon. */
  lemma LeftWins(before: string, word: string, after: string)
    requires Lower(word) == "left"
    ensures IconFor(before + word + after) == TurnLeft
  {
    var text := before + word + after;
    assert text[|before|..|before| + |word|] == word;
    assert MatchesAt(text, "left", |before|);
  }

  /** A text with "right" in it, in any case, and no "left" shows the right icon. */
  lemma RightWithoutLeft(before: string, word: string, after: string)
    requires Lower(word) == "right"
    requires !ContainsIgnoreCase(before + word + after, "left")
    ensures IconFor(before + word + after) == TurnRight
  {
    var text := before + word + after;
    assert text[|before|..|before| + |word|] == word;
    assert MatchesAt(text, "right", |before|);
  }

  /** The icon does not depend on the case of the text: a text and its lower-case form show the
      same icon. */
  lemma IconIgnoresCase(text: string)
    ensures IconFor(Lower(text)) == IconFor(text)
  {
    forall word: string, k: int | 0 <= k <= |text| - |word|
      ensures MatchesAt(Lower(text), word, k) <==> MatchesAt(text, word, k)
    {
      LowerWindow(text, k, k + |word|);
    }
  }

  /** Lowering a window of the lower-case text is lowering the same window of the text. */
  lemma LowerWindow(text: string, i: int, j: int)
    requires 0 <= i <= j <= |text|
    ensures Lower(Lower(text)[i..j]) == Lower(text[i..j])
  {
  }

  /** The notifications `setHighlightedPosition` sends when the highlight moves from
      `previous` to `position`: the previous row, then the new one, skipping -1 (no row). */
  function HighlightNotifications(previous: int, position: int): seq<Notification>
  {
    (if previous != -1 then [ItemChanged(previous)] else [])
      + (if position != -1 then [ItemChanged(position)] else [])
  }

  /** Every row whose highlight changes is notified, so no row keeps a stale background, and
      no more than the two rows involved are notified. */
  lemma NoStaleRow(previous: int, position: int, row: nat)
    ensures (row == previous) != (row == position) ==>
      ItemChanged(row) in HighlightNotifications(previous, position)
    ensures ItemChanged(row) in HighlightNotifications(previous, position) ==>
      row == previous || row == position
  {
  }

  class TurnInstructionsAdapter {
    var instructions: seq<RouteStep>
    var highlightedPosition: int
    /** The notifications sent to the RecyclerView so far, oldest first. */
    var notifications: seq<Notification>

    constructor (instructions: seq<RouteStep>)
      ensures this.instructions == instructions
      ensures highlightedPosition == 0
      ensures notifications == []
    {
      this.instructions := instructions;
      highlightedPosition := 0;
      notifications := [];
    }

    /** `getItemCount()`: one row per step. This and `Bind` define what the list shows; the
        mutators' contracts state their effect through them. */
    function ItemCount(): (n: nat)
      reads this
      ensures n == |instructions|
    {
      |instructions|
    }

    /** `onBindViewHolder` with `bind`: the row for a position the RecyclerView asks for, which
        the contracts of `UpdateInstructions` and `SetHighlightedPosition` describe. */
    function Bind(position: nat): (row: Row)
      reads this
      requires position < ItemCount()
      ensures row.text == instructions[position].instruction
      ensures row.icon == IconFor(instructions[position].instruction)
      ensures row.highlighted <==> position == highlightedPosition
    {
      var instruction := instructions[position];
      Row(instruction.instruction, IconFor(instruction.instruction), position == highlightedPosition)
    }

    /** `updateInstructions`: a new route replaces the list and highlights its first step. */
    method UpdateInstructions(newInstructions: seq<RouteStep>)
      modifies this
      ensures instructions == newInstructions
      ensures highlightedPosition == 0
      ensures notifications == old(notifications) + [DataSetChanged]
      ensures ItemCount() == |newInstructions|
      ensures forall q: nat :: q < ItemCount() ==> (Bind(q).highlighted <==> q == 0)
      ensures forall q: nat :: q < ItemCount() ==> Bind(q).text == newInstructions[q].instruction
    {
      instructions := newInstructions;
      highlightedPosition := 0;
      notifications := notifications + [DataSetChanged];
    }

    /**
     * `setHighlightedPosition`: moves the highlight and notifies the rows whose background
     * changes (see `NoStaleRow`); the list itself is untouched.
     */
    method SetHighlightedPosition(position: int)
      modifies this
      ensures highlightedPosition == position
      ensures instructions == old(instructions)
      ensures notifications
        == old(notifications) + HighlightNotifications(old(highlightedPosition), position)
      ensures forall q: nat :: q < ItemCount() ==> (Bind(q).highlighted <==> q == position)
      ensures forall q: nat :: q < ItemCount() && old(Bind(q).highlighted) != Bind(q).highlighted ==>
        ItemChanged(q) in notifications[|old(notifications)|..]
    {
      var previousPosition := highlightedPosition;
      highlightedPosition := position;
      if previousPosition != -1 {
        notifications := notifications + [ItemChanged(previousPosition)];
      }
      if highlightedPosition != -1 {
        notifications := notifications + [ItemChanged(highlightedPosition)];
      }
      assert notifications[|old(notifications)|..]
        == HighlightNotifications(previousPosition, position);
      forall q: nat | q < ItemCount()
        ensures old(Bind(q).highlighted) != Bind(q).highlighted ==>
          ItemChanged(q) in notifications[|old(notifications)|..]
      {
        NoStaleRow(previousPosition, position, q);
      }
    }

    /** Whatever the state, at most one row is shown highlighted. */
    lemma AtMostOneHighlighted(p: nat, q: nat)
      requires p < ItemCount() && q < ItemCount()
      requires Bind(p).highlighted && Bind(q).highlighted
      ensures p == q
    {
    }
  }
}
