/**
 * The controller's main loop: bytes arrive from the Ethernet bridge in
 * chunks, collect in a buffer until it holds an empty line (CR LF CR LF),
 * and the whole buffer is then decoded as one request and routed. A set
 * request (`GET /set?name=value`) stores a new pulse width, drives the PWM
 * channel and saves the map before an OK reply; a request for `/` gets the
 * control page; any other request gets nothing. The buffer is then emptied.
 */
module Server {
  import opened Base
  import opened Text
  import Utf8
  import Http
  import Servo

  /** CR LF CR LF: the empty line that ends a request's header section. */
  const Terminator: seq<byte> := [13, 10, 13, 10]

  const SetRoute := "GET /set?"
  const RootRoute := "GET / "

  /** What handling a request does to the outside world, in order. */
  datatype Action =
    | PwmWrite(name: string, duty: int)     // the named channel's duty value is written
    | Save(values: map<string, int>)        // the map is written to the values file
    | SendOk                                // the plain-text OK reply goes back to the client
    | SendPage(values: map<string, int>)    // the control page, its sliders set from `values`

  /** The state after some input, and what was done on the way. */
  datatype Outcome = Outcome(buffer: seq<byte>, values: map<string, int>, actions: seq<Action>)

  /** A write to the hardware or the file, as opposed to a reply. */
  predicate IsEffect(a: Action)
  {
    a.PwmWrite? || a.Save?
  }

  /** The bytes `SendOk` writes: the OK reply, encoded. */
  function OkBytes(): seq<byte>
  {
    Utf8.Encode(Http.OkResponse())
  }

  // ---------------------------------------------------------------------
  // The query of a set request
  // ---------------------------------------------------------------------

  /**
   * The text between the first `GET /set?` and the next one (or the end),
   * cut at its first space; `None` when there is no `GET /set?`.
   */
  function QueryOf(request: string): Option<string>
  {
    var segments := Split(request, SetRoute);
    if |segments| < 2 then None else Some(Split(segments[1], " ")[0])
  }

  /** `param, val = query.split("=")` then `int(val)`; `None` wherever Python raises. */
  function ParseSetQuery(request: string): Option<(string, int)>
  {
    match QueryOf(request)
    case None => None
    case Some(query) =>
      var kv := Split(query, "=");
      if |kv| != 2 then
        None
      else
        match ParseInt(kv[1])
        case None => None
        case Some(us) => Some((kv[0], us))
  }

  /** The update a set request makes: a known channel and a pulse width inside the window. */
  function Update(values: map<string, int>, request: string): (u: Option<(string, int)>)
    ensures u.Some? ==> u.value.0 in values && Servo.MinUs <= u.value.1 <= Servo.MaxUs
    ensures u.Some? ==> ParseSetQuery(request) == Some(u.value)
    ensures (ParseSetQuery(request).Some? && ParseSetQuery(request).value.0 in values
             && Servo.MinUs <= ParseSetQuery(request).value.1 <= Servo.MaxUs)
            ==> u == ParseSetQuery(request)
  {
    match ParseSetQuery(request)
    case None => None
    case Some((name, us)) =>
      if name in values && Servo.MinUs <= us <= Servo.MaxUs then Some((name, us)) else None
  }

  // ---------------------------------------------------------------------
  // Routing and the step of the loop
  // ---------------------------------------------------------------------

  /** The new map and the actions for one decoded request. */
  function Handle(request: string, values: map<string, int>): (map<string, int>, seq<Action>)
  {
    if Contains(request, SetRoute) then
      match Update(values, request)
      case None => (values, [SendOk])
      case Some((name, us)) =>
        var updated := values[name := us];
        (updated, [PwmWrite(name, Servo.Duty(us)), Save(updated), SendOk])
    else if Contains(request, RootRoute) then
      (values, [SendPage(values)])
    else
      (values, [])
  }

  /** One pass of the loop that reads `chunk`. */
  function StepSpec(buffer: seq<byte>, values: map<string, int>, chunk: seq<byte>): Outcome
  {
    var received := buffer + chunk;
    if !Contains(received, Terminator) then
      Outcome(received, values, [])
    else
      match Utf8.Decode(received)
      case None => Outcome([], values, [])
      case Some(request) =>
        var (updated, actions) := Handle(request, values);
        Outcome([], updated, actions)
  }

  /** The loop over a sequence of chunks. */
  function Run(buffer: seq<byte>, values: map<string, int>, chunks: seq<seq<byte>>): Outcome
    decreases |chunks|
  {
    if |chunks| == 0 then
      Outcome(buffer, values, [])
    else
      var first := StepSpec(buffer, values, chunks[0]);
      var rest := Run(first.buffer, first.values, chunks[1..]);
      Outcome(rest.buffer, rest.values, first.actions + rest.actions)
  }

  /** All chunks one after another. */
  function Concat(chunks: seq<seq<byte>>): seq<byte>
    decreases |chunks|
  {
    if |chunks| == 0 then [] else chunks[0] + Concat(chunks[1..])
  }

  // ---------------------------------------------------------------------
  // The controller
  // ---------------------------------------------------------------------

  class Controller {
    var buffer: seq<byte>
    var values: map<string, int>

    /** No complete request waits in the buffer, and there is a stored width for exactly the three channels. */
    ghost predicate Valid()
      reads this
    {
      !Contains(buffer, Terminator) && values.Keys == Servo.Names
    }

    /** Start-up: an empty buffer and the saved map, or the defaults when nothing was saved. */
    constructor (saved: Option<map<string, int>>)
      requires saved.Some? ==> saved.value.Keys == Servo.Names
      ensures Valid()
      ensures buffer == [] && values == Servo.LoadValues(saved)
    {
      buffer := [];
      values := Servo.LoadValues(saved);
    }

    /** One pass of the loop: append `chunk`, and handle the buffer once it holds a whole request. */
    method Step(chunk: seq<byte>) returns (actions: seq<Action>)
      requires Valid()
      modifies this
      ensures Valid()
      ensures Outcome(buffer, values, actions) == StepSpec(old(buffer), old(values), chunk)
    {
      buffer := buffer + chunk;
      actions := [];
      if !Contains(buffer, Terminator) {
        return;
      }
      var decoded := Utf8.Decode(buffer);
      if decoded.Some? {
        actions := HandleRequest(decoded.value);
      }
      buffer := [];
      EmptyHasNoTerminator();
    }

    /** Route one decoded request, updating the stored widths for an accepted set request. */
    method HandleRequest(request: string) returns (actions: seq<Action>)
      requires values.Keys == Servo.Names
      modifies this
      ensures values.Keys == Servo.Names && buffer == old(buffer)
      ensures (values, actions) == Handle(request, old(values))
    {
      actions := [];
      if Contains(request, SetRoute) {
        var update := Update(values, request);
        if update.Some? {
          var (name, us) := update.value;
          values := values[name := us];
          actions := [PwmWrite(name, Servo.Duty(us)), Save(values), SendOk];
        } else {
          actions := [SendOk];
        }
      } else if Contains(request, RootRoute) {
        actions := [SendPage(values)];
      }
    }

    /** The loop over every chunk in turn. */
    method Serve(chunks: seq<seq<byte>>) returns (actions: seq<Action>)
      requires Valid()
      modifies this
      ensures Valid()
      ensures Outcome(buffer, values, actions) == Run(old(buffer), old(values), chunks)
      ensures Servo.InWindow(old(values)) ==> Servo.InWindow(values)
    {
      RunKeepsChannels(buffer, values, chunks);
      actions := [];
      var i := 0;
      while i < |chunks|
        invariant 0 <= i <= |chunks|
        invariant Valid()
        invariant Run(old(buffer), old(values), chunks) == After(actions, Run(buffer, values, chunks[i..]))
      {
        RunFirst(buffer, values, chunks[i..]);
        assert chunks[i..][1..] == chunks[i + 1..];
        var before := actions;
        var more := Step(chunks[i]);
        actions := actions + more;
        AfterAfter(before, more, Run(buffer, values, chunks[i + 1..]));
        i := i + 1;
      }
    }
  }

  /** `o` with `prefix` done before its actions. */
  function After(prefix: seq<Action>, o: Outcome): Outcome
  {
    Outcome(o.buffer, o.values, prefix + o.actions)
  }

  lemma AfterAfter(a: seq<Action>, b: seq<Action>, o: Outcome)
    ensures After(a, After(b, o)) == After(a + b, o)
  {
    assert a + (b + o.actions) == a + b + o.actions;
  }

  /** The loop over chunks is the step over the first chunk, then the loop over the rest. */
  lemma RunFirst(buffer: seq<byte>, values: map<string, int>, chunks: seq<seq<byte>>)
    requires |chunks| > 0
    ensures var o := StepSpec(buffer, values, chunks[0]);
      Run(buffer, values, chunks) == After(o.actions, Run(o.buffer, o.values, chunks[1..]))
  {
  }

  // ---------------------------------------------------------------------
  // Framing
  // ---------------------------------------------------------------------

  lemma EmptyHasNoTerminator()
    ensures !Contains([], Terminator)
  {
  }

  /** `Contains(a, p)` survives appending. */
  lemma ContainsPrefix<T>(a: seq<T>, b: seq<T>, p: seq<T>)
    ensures Contains(a, p) ==> Contains(a + b, p)
  {
    if Contains(a, p) {
      ContainsExtended(a, p, [], b);
      assert [] + a + b == a + b;
    }
  }

  /**
   * The buffer grows until it holds CR LF CR LF and is then emptied, whatever
   * the request; without a terminator nothing else happens.
   */
  lemma StepFraming(buffer: seq<byte>, values: map<string, int>, chunk: seq<byte>)
    ensures var o := StepSpec(buffer, values, chunk);
      o.buffer == (if Contains(buffer + chunk, Terminator) then [] else buffer + chunk)
      && !Contains(o.buffer, Terminator)
      && (!Contains(buffer + chunk, Terminator) ==> o.values == values && o.actions == [])
  {
    EmptyHasNoTerminator();
  }

  /** Bytes behind the terminator in the same chunk go with the request: nothing is carried into the next one. */
  lemma TrailingBytesDropped(buffer: seq<byte>, values: map<string, int>, chunk: seq<byte>, tail: seq<byte>)
    requires Contains(buffer + chunk, Terminator)
    ensures StepSpec(buffer, values, chunk + tail).buffer == []
  {
    ContainsPrefix(buffer + chunk, tail, Terminator);
    assert buffer + chunk + tail == buffer + (chunk + tail);
  }

  /** A complete request that is not well-formed UTF-8 is thrown away unanswered and changes nothing. */
  lemma UndecodableIgnored(buffer: seq<byte>, values: map<string, int>, chunk: seq<byte>)
    requires Contains(buffer + chunk, Terminator) && Utf8.Decode(buffer + chunk).None?
    ensures StepSpec(buffer, values, chunk) == Outcome([], values, [])
  {
  }

  /**
   * So is one holding a byte 0xF8 to 0xFF, which no well-formed UTF-8 text
   * contains and which is not even a lead byte of the longest sequence form.
   */
  lemma BadBytesIgnored(buffer: seq<byte>, values: map<string, int>, chunk: seq<byte>, k: int)
    requires Contains(buffer + chunk, Terminator)
    requires 0 <= k < |buffer + chunk| && (buffer + chunk)[k] >= 0xF8
    ensures StepSpec(buffer, values, chunk) == Outcome([], values, [])
  {
    Utf8.DecodedAvoids(buffer + chunk);
    UndecodableIgnored(buffer, values, chunk);
  }

  /** With no terminator anywhere in the input, the loop only collects. */
  lemma {:induction false} RunCollects(buffer: seq<byte>, values: map<string, int>, chunks: seq<seq<byte>>)
    requires !Contains(buffer + Concat(chunks), Terminator)
    ensures Run(buffer, values, chunks) == Outcome(buffer + Concat(chunks), values, [])
    decreases |chunks|
  {
    if |chunks| > 0 {
      var rest := chunks[1..];
      assert buffer + Concat(chunks) == (buffer + chunks[0]) + Concat(rest);
      ContainsPrefix(buffer + chunks[0], Concat(rest), Terminator);
      RunCollects(buffer + chunks[0], values, rest);
    }
  }

  /** Running over two batches of chunks is running over the first, then the second from where it left off. */
  lemma {:induction false} RunAppend(buffer: seq<byte>, values: map<string, int>, xs: seq<seq<byte>>, ys: seq<seq<byte>>)
    ensures var first := Run(buffer, values, xs);
      Run(buffer, values, xs + ys) == After(first.actions, Run(first.buffer, first.values, ys))
    decreases |xs|
  {
    if |xs| == 0 {
      assert xs + ys == ys;
      assert [] + Run(buffer, values, ys).actions == Run(buffer, values, ys).actions;
    } else {
      var o := StepSpec(buffer, values, xs[0]);
      var mid := Run(o.buffer, o.values, xs[1..]);
      assert (xs + ys)[0] == xs[0];
      assert (xs + ys)[1..] == xs[1..] + ys;
      RunFirst(buffer, values, xs + ys);
      RunFirst(buffer, values, xs);
      RunAppend(o.buffer, o.values, xs[1..], ys);
      AfterAfter(o.actions, mid.actions, Run(mid.buffer, mid.values, ys));
    }
  }

  /**
   * How the bytes of a request are cut into chunks does not matter: up to
   * the chunk that completes it, the loop acts as if they came in one piece.
   */
  lemma SplitDelivery(buffer: seq<byte>, values: map<string, int>, chunks: seq<seq<byte>>, last: seq<byte>)
    requires !Contains(buffer + Concat(chunks), Terminator)
    ensures Run(buffer, values, chunks + [last]) == StepSpec(buffer, values, Concat(chunks) + last)
  {
    var collected := buffer + Concat(chunks);
    var o := StepSpec(collected, values, last);
    RunCollects(buffer, values, chunks);
    RunAppend(buffer, values, chunks, [last]);
    assert Run(buffer, values, chunks + [last]) == After([], Run(collected, values, [last]));
    RunSingle(collected, values, last);
    assert [] + o.actions == o.actions;
    Regroup(buffer, Concat(chunks), last, values);
  }

  /** The loop over one chunk is the step over it. */
  lemma RunSingle(buffer: seq<byte>, values: map<string, int>, chunk: seq<byte>)
    ensures Run(buffer, values, [chunk]) == StepSpec(buffer, values, chunk)
  {
    var o := StepSpec(buffer, values, chunk);
    assert [chunk][1..] == [];
    assert o.actions + [] == o.actions;
  }

  /** Only the bytes received so far matter to a step, not where the previous chunk ended. */
  lemma Regroup(a: seq<byte>, b: seq<byte>, c: seq<byte>, values: map<string, int>)
    ensures StepSpec(a + b, values, c) == StepSpec(a, values, b + c)
  {
    assert a + b + c == a + (b + c);
  }

  // ---------------------------------------------------------------------
  // Routing
  // ---------------------------------------------------------------------

  /**
   * At most one reply per request, and it comes last, after the writes. A
   * set request always gets the OK reply, whether or not it was accepted; a
   * request for `/` that is not a set request gets the page showing the
   * current widths; anything else gets no reply. Only a set request writes.
   */
  lemma HandleReplies(request: string, values: map<string, int>)
    ensures var (_, actions) := Handle(request, values);
      (forall k :: 0 <= k < |actions| - 1 ==> IsEffect(actions[k]))
      && (Contains(request, SetRoute) ==> |actions| > 0 && actions[|actions| - 1] == SendOk)
      && (!Contains(request, SetRoute) && Contains(request, RootRoute) ==> actions == [SendPage(values)])
      && (!Contains(request, SetRoute) && !Contains(request, RootRoute) ==> actions == [])
  {
  }

  /**
   * The map changes exactly when a set request carries an accepted update,
   * and then only the named channel changes, to the requested width.
   */
  lemma HandleUpdates(request: string, values: map<string, int>)
    ensures var u := Update(values, request);
      Handle(request, values).0
        == if Contains(request, SetRoute) && u.Some? then values[u.value.0 := u.value.1] else values
  {
  }

  /** Handling keeps the channel set, and keeps every width inside the window. */
  lemma HandleKeepsChannels(request: string, values: map<string, int>)
    ensures Handle(request, values).0.Keys == values.Keys
    ensures Servo.InWindow(values) ==> Servo.InWindow(Handle(request, values).0)
  {
    HandleUpdates(request, values);
    var u := Update(values, request);
    if Contains(request, SetRoute) && u.Some? {
      var (name, us) := u.value;
      assert name in values && Servo.MinUs <= us <= Servo.MaxUs;
      assert Handle(request, values).0 == values[name := us];
    } else {
      assert Handle(request, values).0 == values;
    }
  }

  /**
   * The hardware and the file agree with the map: every PWM write carries
   * the duty of the width now stored for its channel, and every save writes
   * the map now held.
   */
  lemma HandleEffectsAgree(request: string, values: map<string, int>)
    ensures var (updated, actions) := Handle(request, values);
      (forall k :: 0 <= k < |actions| && actions[k].PwmWrite? ==>
         actions[k].name in updated && actions[k].duty == Servo.Duty(updated[actions[k].name]))
      && (forall k :: 0 <= k < |actions| && actions[k].Save? ==> actions[k].values == updated)
  {
    if Contains(request, SetRoute) && Update(values, request).Some? {
      var (name, us) := Update(values, request).value;
      var updated := values[name := us];
      var actions := [PwmWrite(name, Servo.Duty(us)), Save(updated), SendOk];
      assert Handle(request, values) == (updated, actions);
      assert actions[0].name in updated && updated[actions[0].name] == us;
    }
  }

  /** A step keeps the channel set, and keeps every width inside the window. */
  lemma StepKeepsChannels(buffer: seq<byte>, values: map<string, int>, chunk: seq<byte>)
    ensures StepSpec(buffer, values, chunk).values.Keys == values.Keys
    ensures Servo.InWindow(values) ==> Servo.InWindow(StepSpec(buffer, values, chunk).values)
  {
    var received := buffer + chunk;
    if Contains(received, Terminator) && Utf8.Decode(received).Some? {
      HandleKeepsChannels(Utf8.Decode(received).value, values);
    }
  }

  /** So does the whole loop: the saved map always has the three channels, each inside the window. */
  lemma {:induction false} RunKeepsChannels(buffer: seq<byte>, values: map<string, int>, chunks: seq<seq<byte>>)
    ensures Run(buffer, values, chunks).values.Keys == values.Keys
    ensures Servo.InWindow(values) ==> Servo.InWindow(Run(buffer, values, chunks).values)
    decreases |chunks|
  {
    if |chunks| > 0 {
      var o := StepSpec(buffer, values, chunks[0]);
      StepKeepsChannels(buffer, values, chunks[0]);
      RunKeepsChannels(o.buffer, o.values, chunks[1..]);
    }
  }

  // ---------------------------------------------------------------------
  // The requests the control page sends
  // ---------------------------------------------------------------------

  /**
   * The request a slider of the control page sends for its integer value,
   * `fetch('/set?' + name + '=' + value)`: the request line up to the
   * space before the protocol version, then whatever the client adds. A
   * number box may send other text, which `ParseInt` rejects.
   */
  function SetRequest(name: string, us: int, rest: string): string
  {
    SetRoute + name + "=" + Show(us) + " " + rest
  }

  /** A formatted number holds neither `=` nor a space. */
  lemma ShowPlain(n: int)
    ensures '=' !in Show(n) && ' ' !in Show(n)
  {
    var s := Show(n);
    forall i | 0 <= i < |s| ensures s[i] != '=' && s[i] != ' ' {
      if i > 0 {
        assert IsDigit(s[i]);
      }
    }
  }

  /** In `q + " " + x`, a set route cannot start at or before that space when `q` has no space and does not end in `T`. */
  lemma NoRouteBeforeSpace(q: string, x: string)
    requires ' ' !in q && |q| > 0 && q[|q| - 1] != 'T'
    ensures forall j :: 0 <= j <= |q| ==> !OccursAt(q + " " + x, SetRoute, j)
  {
    var s := q + " " + x;
    forall j | 0 <= j <= |q| ensures !OccursAt(s, SetRoute, j) {
      if j + 3 < |q| {
        assert s[j + 3] == q[j + 3];
        Mismatch(s, SetRoute, j, 3);
      } else if j + 3 == |q| {
        assert s[j + 2] == q[|q| - 1];
        Mismatch(s, SetRoute, j, 2);
      } else {
        assert s[|q|] == ' ';
        Mismatch(s, SetRoute, j, |q| - j);
      }
    }
  }

  /** The text up to the first space is `q` when `q` has no space and one follows it. */
  lemma FirstWord(q: string, f: string)
    requires ' ' !in q && |f| > |q| && f[..|q|] == q && f[|q|] == ' '
    ensures Split(f, " ")[0] == q
  {
    var t := f[|q|..];
    assert f == q + t;
    assert t[..1] == " ";
    assert IndexOf(t, " ") == Some(0);
    IndexOfSkip(q, t, " ");
    SplitAt(f, " ", |q|);
  }

  /** The piece of `q + " " + x` before any set route still starts with `q` and the space. */
  lemma PieceBeforeRoute(q: string, x: string)
    requires ' ' !in q && |q| > 0 && q[|q| - 1] != 'T'
    ensures var f := Split(q + " " + x, SetRoute)[0];
      |f| > |q| && f[..|q|] == q && f[|q|] == ' '
  {
    var after := q + " " + x;
    NoRouteBeforeSpace(q, x);
    IndexOfSpec(after, SetRoute);
    match IndexOf(after, SetRoute)
    case None =>
    case Some(m) =>
      SplitAt(after, SetRoute, m);
  }

  /** The query of a page request is `name=value`, whatever the rest of the request holds. */
  lemma QueryOfSetRequest(name: string, us: int, rest: string)
    requires '=' !in name && ' ' !in name
    ensures QueryOf(SetRequest(name, us, rest)) == Some(name + "=" + Show(us))
  {
    var q := name + "=" + Show(us);
    var after := q + " " + rest;
    var r := SetRequest(name, us, rest);
    ShowPlain(us);
    assert r == SetRoute + after;
    assert r[0..|SetRoute|] == SetRoute;
    IndexOfIs(r, SetRoute, 0);
    SplitAt(r, SetRoute, 0);
    assert r[|SetRoute|..] == after;
    PieceBeforeRoute(q, rest);
    FirstWord(q, Split(after, SetRoute)[0]);
  }

  /**
   * The handler reads back exactly the channel and the width the page put
   * in the request: a round trip through the request line.
   */
  lemma ParseSetRequest(name: string, us: int, rest: string)
    requires '=' !in name && ' ' !in name
    ensures ParseSetQuery(SetRequest(name, us, rest)) == Some((name, us))
  {
    QueryOfSetRequest(name, us, rest);
    ShowPlain(us);
    assert Join("=", [name, Show(us)]) == name + "=" + Show(us);
    SplitJoin([name, Show(us)], "=");
    ParseIntShow(us, "", "");
    assert "" + Show(us) + "" == Show(us);
  }

  /** A query parses only when it holds exactly one `=`. */
  lemma SetQueryOneEquals(request: string)
    ensures ParseSetQuery(request).Some? ==> QueryOf(request).Some? && Count(QueryOf(request).value, '=') == 1
    ensures QueryOf(request).Some? && Count(QueryOf(request).value, '=') != 1 ==> ParseSetQuery(request).None?
  {
    if QueryOf(request).Some? {
      SplitPieces(QueryOf(request).value, '=');
    }
  }

  /** Text around an empty line encodes to bytes around CR LF CR LF. */
  lemma EncodedBlankLine(pre: string, post: string)
    ensures Contains(Utf8.Encode(pre + Http.BlankLine + post), Terminator)
  {
    Utf8.EncodeAppend(pre + Http.BlankLine, post);
    Utf8.EncodeAppend(pre, Http.BlankLine);
    assert Utf8.Encode(Http.BlankLine) == Terminator;
    assert OccursAt(Terminator, Terminator, 0);
    ContainsIff(Terminator, Terminator);
    ContainsExtended(Terminator, Terminator, Utf8.Encode(pre), Utf8.Encode(post));
  }

  /** The bytes of a page request hold CR LF CR LF once the client's part of it holds an empty line. */
  lemma SetRequestFramed(name: string, us: int, rest: string)
    requires Contains(rest, Http.BlankLine)
    ensures Contains(Utf8.Encode(SetRequest(name, us, rest)), Terminator)
  {
    ContainsIff(rest, Http.BlankLine);
    var i :| OccursAt(rest, Http.BlankLine, i);
    Around(rest, Http.BlankLine, i);
    var pre := SetRoute + name + "=" + Show(us) + " " + rest[..i];
    var post := rest[i + |Http.BlankLine|..];
    assert SetRequest(name, us, rest) == pre + Http.BlankLine + post;
    EncodedBlankLine(pre, post);
  }

  /**
   * End to end: the bytes of a page request, arriving on an empty buffer,
   * store the width and drive the channel when the channel exists and the
   * width is inside the window, and are answered OK either way; the buffer
   * is emptied.
   */
  lemma SetRequestStep(values: map<string, int>, name: string, us: int, rest: string)
    requires '=' !in name && ' ' !in name
    requires Contains(rest, Http.BlankLine)
    ensures var o := StepSpec([], values, Utf8.Encode(SetRequest(name, us, rest)));
      var accepted := name in values && Servo.MinUs <= us <= Servo.MaxUs;
      o.buffer == []
      && (accepted ==>
            o.values == values[name := us]
            && o.actions == [PwmWrite(name, Servo.Duty(us)), Save(values[name := us]), SendOk])
      && (!accepted ==> o.values == values && o.actions == [SendOk])
  {
    var request := SetRequest(name, us, rest);
    SetRequestFramed(name, us, rest);
    Utf8.DecodeEncode(request);
    assert [] + Utf8.Encode(request) == Utf8.Encode(request);
    assert request[0..|SetRoute|] == SetRoute;
    ContainsIff(request, SetRoute);
    ParseSetRequest(name, us, rest);
  }

  /** The OK reply survives the trip through bytes: a client decodes exactly the reply text. */
  lemma OkBytesDecode()
    ensures Utf8.Decode(OkBytes()) == Some(Http.OkResponse())
  {
    Utf8.DecodeEncode(Http.OkResponse());
  }
}
