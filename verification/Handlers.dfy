/** Handlers: tasks of a play that run when other tasks notify them. */
module Handlers {
  import opened Values

  datatype Handler = Handler(name: string, listen: seq<string>)

  datatype Definition = Definition(handler: Handler, name: string, position: nat)

  datatype HandlerError =
    | Unnamed(position: nat)
    | RenderFailed(name: string)
    | TargetRenderFailed(target: string)

  datatype HandlerIndex = HandlerIndex(
    definitions: seq<Definition>, byName: map<string, nat>, byTopic: map<string, seq<nat>>)

  // ----- Building the index

  /** No later handler has the name of the one at position `p`. */
  predicate LastOfName(names: seq<string>, p: nat)
    requires p < |names|
  {
    forall q :: p < q < |names| ==> names[q] != names[p]
  }

  /** The definitions are the last handlers of their names, in order. */
  ghost predicate Definitions(tasks: seq<Handler>, names: seq<string>, definitions: seq<Definition>, upto: nat)
    requires |tasks| == |names| && upto <= |names|
  {
    && (forall d :: 0 <= d < |definitions| ==>
          var p := definitions[d].position;
          p < upto && LastOfName(names, p) && definitions[d] == Definition(tasks[p], names[p], p))
    && (forall d, e :: 0 <= d < e < |definitions| ==> definitions[d].position < definitions[e].position)
    && (forall p :: 0 <= p < upto && LastOfName(names, p) ==>
          exists d :: 0 <= d < |definitions| && definitions[d].position == p)
  }

  ghost predicate NamesIndexed(definitions: seq<Definition>, byName: map<string, nat>) {
    && (forall d :: 0 <= d < |definitions| ==> definitions[d].name in byName && byName[definitions[d].name] == d)
    && (forall n :: n in byName ==> byName[n] < |definitions| && definitions[byName[n]].name == n)
  }

  predicate Ascending(s: seq<nat>) {
    forall i, j :: 0 <= i < j < |s| ==> s[i] <= s[j]
  }

  predicate TopicLists(byTopic: map<string, seq<nat>>, topic: string, d: nat) {
    topic in byTopic && d in byTopic[topic]
  }

  predicate Listens(definitions: seq<Definition>, topic: string, d: nat) {
    d < |definitions| && topic in definitions[d].handler.listen
  }

  ghost predicate TopicsIndexed(definitions: seq<Definition>, byTopic: map<string, seq<nat>>) {
    && (forall t :: t in byTopic ==> Ascending(byTopic[t]))
    && (forall t, d: nat :: TopicLists(byTopic, t, d) <==> Listens(definitions, t, d))
  }

  ghost predicate GoodIndex(tasks: seq<Handler>, names: seq<string>, index: HandlerIndex) {
    && |tasks| == |names|
    && Definitions(tasks, names, index.definitions, |names|)
    && NamesIndexed(index.definitions, index.byName)
    && TopicsIndexed(index.definitions, index.byTopic)
  }

  method RenderNames(tasks: seq<Handler>, renderName: Handler -> Option<string>)
    returns (r: Result<seq<string>, HandlerError>, lastByName: map<string, nat>)
    ensures r.Ok? <==> forall p :: 0 <= p < |tasks| ==> tasks[p].name != "" && renderName(tasks[p]).Some?
    ensures r.Ok? ==> |r.value| == |tasks| && forall p :: 0 <= p < |tasks| ==> renderName(tasks[p]) == Some(r.value[p])
    ensures r.Ok? ==> forall p :: 0 <= p < |tasks| ==>
      r.value[p] in lastByName && (lastByName[r.value[p]] == p <==> LastOfName(r.value, p))
  {
    var names: seq<string> := [];
    lastByName := map[];
    for position := 0 to |tasks|
      invariant |names| == position
      invariant forall p :: 0 <= p < position ==> tasks[p].name != "" && renderName(tasks[p]) == Some(names[p])
      invariant forall p :: 0 <= p < position ==> names[p] in lastByName && p <= lastByName[names[p]] < position
      invariant forall n :: n in lastByName ==> lastByName[n] < position && names[lastByName[n]] == n
    {
      var task := tasks[position];
      if task.name == "" {
        return Err(Unnamed(position + 1)), lastByName;
      }
      match renderName(task) {
        case None =>
          return Err(RenderFailed(task.name)), lastByName;
        case Some(name) =>
          names := names + [name];
          lastByName := lastByName[name := position];
      }
    }
    r := Ok(names);
  }

  /** A position whose handler is overridden later needs no definition. */
  lemma DefinitionSkipped(tasks: seq<Handler>, names: seq<string>, definitions: seq<Definition>, position: nat)
    requires |tasks| == |names| && position < |tasks| && !LastOfName(names, position)
    requires Definitions(tasks, names, definitions, position)
    ensures Definitions(tasks, names, definitions, position + 1)
  {
  }

  method AddTopics(definitions: seq<Definition>, byTopic0: map<string, seq<nat>>, added: Definition)
    returns (byTopic: map<string, seq<nat>>)
    requires TopicsIndexed(definitions, byTopic0)
    ensures TopicsIndexed(definitions + [added], byTopic)
  {
    byTopic := byTopic0;
    var listen := added.handler.listen;
    var definitionIndex := |definitions|;
    for i := 0 to |listen|
      invariant forall t :: t in byTopic ==> Ascending(byTopic[t])
      invariant forall t, d: nat :: TopicLists(byTopic, t, d) <==>
        (Listens(definitions, t, d) || (d == definitionIndex && t in listen[..i]))
    {
      var topic := listen[i];
      var known := if topic in byTopic then byTopic[topic] else [];
      forall k | 0 <= k < |known|
        ensures known[k] <= definitionIndex
      {
        assert TopicLists(byTopic, topic, known[k]);
      }
      ghost var before := byTopic;
      byTopic := byTopic[topic := known + [definitionIndex]];
      forall t, d: nat
        ensures TopicLists(byTopic, t, d) <==> TopicLists(before, t, d) || (t == topic && d == definitionIndex)
      {
      }
      assert listen[..i + 1] == listen[..i] + [topic];
    }
    assert listen[..|listen|] == listen;
    forall t, d: nat
      ensures TopicLists(byTopic, t, d) <==> Listens(definitions + [added], t, d)
    {
    }
  }

  lemma NameAdded(definitions: seq<Definition>, byName: map<string, nat>, added: Definition)
    requires NamesIndexed(definitions, byName)
    requires forall d :: 0 <= d < |definitions| ==> definitions[d].name != added.name
    ensures NamesIndexed(definitions + [added], byName[added.name := |definitions|])
  {
  }

  lemma DefinitionAdded(tasks: seq<Handler>, names: seq<string>, definitions: seq<Definition>,
                        byName: map<string, nat>, position: nat)
    requires |tasks| == |names| && position < |tasks| && LastOfName(names, position)
    requires Definitions(tasks, names, definitions, position) && NamesIndexed(definitions, byName)
    ensures var more := definitions + [Definition(tasks[position], names[position], position)];
      && Definitions(tasks, names, more, position + 1)
      && NamesIndexed(more, byName[names[position] := |definitions|])
  {
    var more := definitions + [Definition(tasks[position], names[position], position)];
    forall d | 0 <= d < |definitions|
      ensures definitions[d].name != names[position]
    {
      assert LastOfName(names, definitions[d].position);
    }
    NameAdded(definitions, byName, Definition(tasks[position], names[position], position));
    hide LastOfName, NamesIndexed;
    assert forall d :: 0 <= d < |definitions| ==> more[d] == definitions[d];
    forall p | 0 <= p < position + 1 && LastOfName(names, p)
      ensures exists d :: 0 <= d < |more| && more[d].position == p
    {
      if p < position {
        var d :| 0 <= d < |definitions| && definitions[d].position == p;
        assert more[d].position == p;
      } else {
        assert more[|definitions|].position == p;
      }
    }
  }

  method AddDefinition(tasks: seq<Handler>, ghost names: seq<string>, index: HandlerIndex, name: string, position: nat)
    returns (r: HandlerIndex)
    requires |tasks| == |names| && position < |tasks| && names[position] == name && LastOfName(names, position)
    requires Definitions(tasks, names, index.definitions, position)
    requires NamesIndexed(index.definitions, index.byName) && TopicsIndexed(index.definitions, index.byTopic)
    ensures Definitions(tasks, names, r.definitions, position + 1)
    ensures NamesIndexed(r.definitions, r.byName) && TopicsIndexed(r.definitions, r.byTopic)
  {
    var definitionIndex := |index.definitions|;
    var added := Definition(tasks[position], name, position);
    var definitions := index.definitions + [added];
    var byTopic := AddTopics(index.definitions, index.byTopic, added);
    r := HandlerIndex(definitions, index.byName[name := definitionIndex], byTopic);
    DefinitionAdded(tasks, names, index.definitions, index.byName, position);
  }

  method BuildHandlerIndex(tasks: seq<Handler>, renderName: Handler -> Option<string>)
    returns (r: Result<HandlerIndex, HandlerError>, ghost names: seq<string>)
    ensures r.Ok? <==> forall p :: 0 <= p < |tasks| ==> tasks[p].name != "" && renderName(tasks[p]).Some?
    ensures r.Ok? ==> GoodIndex(tasks, names, r.value)
    ensures r.Ok? ==> forall p :: 0 <= p < |tasks| ==> renderName(tasks[p]) == Some(names[p])
  {
    var rendered, lastByName := RenderNames(tasks, renderName);
    names := [];
    if rendered.Err? {
      return Err(rendered.error), names;
    }
    names := rendered.value;
    var index := HandlerIndex([], map[], map[]);
    for position := 0 to |tasks|
      invariant Definitions(tasks, names, index.definitions, position)
      invariant NamesIndexed(index.definitions, index.byName)
      invariant TopicsIndexed(index.definitions, index.byTopic)
    {
      var name := rendered.value[position];
      if lastByName[name] == position {
        index := AddDefinition(tasks, names, index, name, position);
      } else {
        DefinitionSkipped(tasks, names, index.definitions, position);
      }
    }
    r := Ok(index);
  }

  // ----- Queueing

  /** What a target names: the definition of that name and all definitions that listen to it. */
  ghost predicate Named(index: HandlerIndex, target: string, d: nat) {
    d < |index.definitions| && (index.definitions[d].name == target || Listens(index.definitions, target, d))
  }

  /** Only the last handler of a name can be reached, by whatever target. */
  lemma OnlyLastReachable(tasks: seq<Handler>, names: seq<string>, index: HandlerIndex, target: string, d: nat)
    requires GoodIndex(tasks, names, index) && Named(index, target, d)
    ensures var p := index.definitions[d].position;
      && p < |names| && LastOfName(names, p)
      && forall q :: 0 <= q < |names| && names[q] == names[p] ==> q <= p
  {
  }

  method QueueTarget(index: HandlerIndex, target: string, pending0: set<nat>)
    returns (pending: set<nat>, resolved: bool)
    requires NamesIndexed(index.definitions, index.byName) && TopicsIndexed(index.definitions, index.byTopic)
    ensures forall d: nat :: d in pending <==> (d in pending0 || Named(index, target, d))
    ensures resolved <==> exists d: nat :: Named(index, target, d)
  {
    pending, resolved := pending0, false;
    if target in index.byName {
      pending := pending + {index.byName[target]};
      resolved := true;
      assert Named(index, target, index.byName[target]);
    }
    var listeners := if target in index.byTopic then index.byTopic[target] else [];
    ghost var named := pending;
    for i := 0 to |listeners|
      invariant forall d: nat :: d in pending <==> (d in named || d in listeners[..i])
      invariant resolved <==> (target in index.byName || i > 0)
    {
      pending := pending + {listeners[i]};
      resolved := true;
      assert listeners[..i + 1] == listeners[..i] + [listeners[i]];
    }
    assert listeners[..|listeners|] == listeners;
    if |listeners| > 0 {
      assert TopicLists(index.byTopic, target, listeners[0]);
      assert Named(index, target, listeners[0]);
    }
    forall d: nat
      ensures d in listeners <==> Listens(index.definitions, target, d)
    {
      assert TopicLists(index.byTopic, target, d) <==> Listens(index.definitions, target, d);
    }
  }

  datatype TaskResult = TaskResult(failed: bool, skipped: bool, changed: bool)

  /** A task notifies only when it ran, changed something and did not fail. */
  predicate Notifies(result: Option<TaskResult>) {
    result.Some? && !result.value.failed && !result.value.skipped && result.value.changed
  }

  /** How many targets render before the first that does not. */
  function Rendering(notify: seq<string>, render: string -> Option<string>): (n: nat)
    ensures n <= |notify| && forall k :: 0 <= k < n ==> render(notify[k]).Some?
    ensures n < |notify| ==> render(notify[n]).None?
  {
    if notify == [] || render(notify[0]).None? then 0 else 1 + Rendering(notify[1..], render)
  }

  method QueueTaskNotifications(notify: seq<string>, result: Option<TaskResult>,
                                render: string -> Option<string>, index: HandlerIndex, pending0: set<nat>)
    returns (err: Option<HandlerError>, pending: set<nat>)
    requires NamesIndexed(index.definitions, index.byName) && TopicsIndexed(index.definitions, index.byTopic)
    ensures result.None? || result.value.failed || result.value.skipped || !result.value.changed ==>
      err.None? && pending == pending0
    ensures result.Some? && result.value.changed && !result.value.failed && !result.value.skipped && err.None? ==>
      forall d: nat, k :: 0 <= k < |notify| && render(notify[k]).Some? && Named(index, render(notify[k]).value, d) ==>
        d in pending
    ensures !Notifies(result) ==> err.None? && pending == pending0
    ensures Notifies(result) ==> (err.None? <==> Rendering(notify, render) == |notify|)
    ensures Notifies(result) && err.Some? ==> err == Some(TargetRenderFailed(notify[Rendering(notify, render)]))
    ensures Notifies(result) ==> forall d: nat :: d in pending <==>
      (d in pending0 || exists k :: 0 <= k < Rendering(notify, render) && Named(index, render(notify[k]).value, d))
  {
    pending := pending0;
    if |notify| == 0 || result.None? {
      return None, pending;
    }
    if result.value.failed || result.value.skipped || !result.value.changed {
      return None, pending;
    }
    for i := 0 to |notify|
      invariant forall k :: 0 <= k < i ==> render(notify[k]).Some?
      invariant forall d: nat :: d in pending <==>
        (d in pending0 || exists k :: 0 <= k < i && Named(index, render(notify[k]).value, d))
    {
      match render(notify[i]) {
        case None =>
          return Some(TargetRenderFailed(notify[i])), pending;
        case Some(target) =>
          var resolved;
          pending, resolved := QueueTarget(index, target, pending);
      }
    }
    err := None;
  }
}
