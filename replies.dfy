/**
  The response handed to a matching listener. It holds the robot, the
  triggering message, the match, and an envelope addressed to the message's
  room and user. Its posting methods hand the envelope, followed by the
  caller's strings in order, to the adapter method of the same name. The
  adapter is a collaborator whose only observable behaviour here is the log
  of calls it receives.
 */
module Replies {
  import opened Options

  /** The inbound message. Its `finish` is a collaborator: only the number of
      requests to stop dispatching is recorded. */
  class Message {
    const room: string
    const user: string
    var finishRequests: nat

    constructor (room: string, user: string)
      ensures this.room == room && this.user == user && finishRequests == 0
    {
      this.room := room;
      this.user := user;
      finishRequests := 0;
    }

    method Finish()
      modifies this
      ensures finishRequests == old(finishRequests) + 1
    {
      finishRequests := finishRequests + 1;
    }
  }

  /** Where a reply goes: the room and user of the message, and the message. */
  datatype Envelope = Envelope(room: string, user: string, message: Message)

  function EnvelopeFor(message: Message): Envelope
  {
    Envelope(message.room, message.user, message)
  }

  /** An argument of an adapter call. */
  datatype Arg = EnvelopeArg(envelope: Envelope) | Text(text: string)

  /** The adapter methods a response posts through. */
  datatype Kind = Send | Emote | Reply | Topic | Play | Locked

  datatype Call = Call(kind: Kind, args: seq<Arg>)

  /** The strings as adapter arguments. */
  function TextArgs(strings: seq<string>): seq<Arg>
  {
    seq(|strings|, i requires 0 <= i < |strings| => Text(strings[i]))
  }

  /** `[envelope].concat(strings)`. */
  function Arguments(envelope: Envelope, strings: seq<string>): (args: seq<Arg>)
    ensures |args| == |strings| + 1 && args[0] == EnvelopeArg(envelope)
    ensures forall i :: 0 <= i < |strings| ==> args[i + 1] == Text(strings[i])
  {
    [EnvelopeArg(envelope)] + TextArgs(strings)
  }

  /** The strings carried by a list of arguments, in order. */
  function Texts(args: seq<Arg>): seq<string>
  {
    if args == [] then []
    else (match args[0] case Text(t) => [t] case EnvelopeArg(_) => []) + Texts(args[1..])
  }

  lemma {:induction false} TextsOfTextArgs(strings: seq<string>)
    ensures Texts(TextArgs(strings)) == strings
    decreases |strings|
  {
    if strings != [] {
      assert TextArgs(strings)[1..] == TextArgs(strings[1..]);
      TextsOfTextArgs(strings[1..]);
      assert strings == [strings[0]] + strings[1..];
    }
  }

  /** An adapter call carries exactly the envelope and then the strings it
      was given, in the order given. */
  lemma ArgumentsRoundTrip(envelope: Envelope, strings: seq<string>)
    ensures var args := Arguments(envelope, strings);
      args[0] == EnvelopeArg(envelope) && Texts(args[1..]) == strings
  {
    assert Arguments(envelope, strings)[1..] == TextArgs(strings);
    TextsOfTextArgs(strings);
  }

  /** The chat adapter, seen from the response: a log of the calls made. */
  class Adapter {
    var log: seq<Call>

    constructor ()
      ensures log == []
    {
      log := [];
    }

    method Send(args: seq<Arg>)
      modifies this
      ensures log == old(log) + [Call(Kind.Send, args)]
    {
      log := log + [Call(Kind.Send, args)];
    }

    method Emote(args: seq<Arg>)
      modifies this
      ensures log == old(log) + [Call(Kind.Emote, args)]
    {
      log := log + [Call(Kind.Emote, args)];
    }

    method Reply(args: seq<Arg>)
      modifies this
      ensures log == old(log) + [Call(Kind.Reply, args)]
    {
      log := log + [Call(Kind.Reply, args)];
    }

    method Topic(args: seq<Arg>)
      modifies this
      ensures log == old(log) + [Call(Kind.Topic, args)]
    {
      log := log + [Call(Kind.Topic, args)];
    }

    method Play(args: seq<Arg>)
      modifies this
      ensures log == old(log) + [Call(Kind.Play, args)]
    {
      log := log + [Call(Kind.Play, args)];
    }

    method Locked(args: seq<Arg>)
      modifies this
      ensures log == old(log) + [Call(Kind.Locked, args)]
    {
      log := log + [Call(Kind.Locked, args)];
    }
  }

  /** The slice of the `robot` object a response reads: its adapter. The
      part the help script reads, the name and alias, is `Help.Robot`. */
  class Robot {
    const adapter: Adapter

    constructor (adapter: Adapter)
      ensures this.adapter == adapter
    {
      this.adapter := adapter;
    }
  }

  /** The index `Math.floor(draw * n)` picks for a draw in [0, 1). */
  function Pick(draw: real, n: nat): (k: int)
    requires 0.0 <= draw < 1.0 && n > 0
    ensures 0 <= k < n
  {
    assert draw * (n as real) < n as real by {
      assert (1.0 - draw) * (n as real) > 0.0;
    }
    (draw * (n as real)).Floor
  }

  /** Every item can be drawn: the draw `i / n` picks item `i`. */
  lemma RandomReachesEvery<T>(items: seq<T>, i: nat)
    requires i < |items|
    ensures var draw := (i as real) / (|items| as real);
      0.0 <= draw < 1.0 && Response.Random(items, draw) == Some(items[i])
  {
    var n := |items| as real;
    var draw := (i as real) / n;
    assert draw * n == i as real;
  }

  class Response {
    var robot: Robot
    var message: Message
    var matched: Option<seq<string>>
    var envelope: Envelope

    constructor (robot: Robot, message: Message, matched: Option<seq<string>>)
      ensures this.robot == robot && this.message == message && this.matched == matched
      ensures envelope.room == message.room && envelope.user == message.user
      ensures envelope.message == message
    {
      this.robot := robot;
      this.message := message;
      this.matched := matched;
      this.envelope := EnvelopeFor(message);
    }

    /** Posts the strings back to the chat source. */
    method Send(strings: seq<string>)
      modifies robot.adapter
      ensures robot.adapter.log == old(robot.adapter.log) + [Call(Kind.Send, Arguments(envelope, strings))]
      ensures unchanged(this) && unchanged(message)
    {
      robot.adapter.Send(Arguments(envelope, strings));
    }

    /** Posts the strings as an emote. */
    method Emote(strings: seq<string>)
      modifies robot.adapter
      ensures robot.adapter.log == old(robot.adapter.log) + [Call(Kind.Emote, Arguments(envelope, strings))]
      ensures unchanged(this) && unchanged(message)
    {
      robot.adapter.Emote(Arguments(envelope, strings));
    }

    /** Posts the strings addressed to the message's user. */
    method Reply(strings: seq<string>)
      modifies robot.adapter
      ensures robot.adapter.log == old(robot.adapter.log) + [Call(Kind.Reply, Arguments(envelope, strings))]
      ensures unchanged(this) && unchanged(message)
    {
      robot.adapter.Reply(Arguments(envelope, strings));
    }

    /** Sets the strings as the topic of the room. */
    method Topic(strings: seq<string>)
      modifies robot.adapter
      ensures robot.adapter.log == old(robot.adapter.log) + [Call(Kind.Topic, Arguments(envelope, strings))]
      ensures unchanged(this) && unchanged(message)
    {
      robot.adapter.Topic(Arguments(envelope, strings));
    }

    /** Plays the strings as sounds. */
    method Play(strings: seq<string>)
      modifies robot.adapter
      ensures robot.adapter.log == old(robot.adapter.log) + [Call(Kind.Play, Arguments(envelope, strings))]
      ensures unchanged(this) && unchanged(message)
    {
      robot.adapter.Play(Arguments(envelope, strings));
    }

    /** Posts the strings in an unlogged room. */
    method Locked(strings: seq<string>)
      modifies robot.adapter
      ensures robot.adapter.log == old(robot.adapter.log) + [Call(Kind.Locked, Arguments(envelope, strings))]
      ensures unchanged(this) && unchanged(message)
    {
      robot.adapter.Locked(Arguments(envelope, strings));
    }

    /** `items[Math.floor(Math.random() * items.length)]` for the draw
        `draw`: an item of the list, or nothing (`undefined`) when the list
        is empty. */
    static function Random<T>(items: seq<T>, draw: real): (r: Option<T>)
      requires 0.0 <= draw < 1.0
      ensures r.Some? <==> items != []
      ensures r.Some? ==> r.value in items
    {
      if items == [] then None else Some(items[Pick(draw, |items|)])
    }

    /** Tells the message to stop dispatching to further listeners. */
    method Finish()
      modifies message
      ensures message.finishRequests == old(message.finishRequests) + 1
      ensures unchanged(this) && unchanged(robot.adapter)
    {
      message.Finish();
    }
  }

}
