/** How the main loop hands its MQTT configuration to the MQTT task: a generation counter, and a
    channel of four commands that may be full. */
module MqttHandoff {
  import opened Wrappers

  const CHANNEL_CAPACITY: nat := 4

  /** The generation is a 32-bit counter that never takes the value 0. */
  const PERIOD: nat := U32_MAX

  const DEFAULT_ROOM_ID := "room-default"

  datatype TaskConfig = TaskConfig(
    wifiConnected: bool, enabled: bool, useWebsockets: bool, host: string, port: nat,
    username: string, password: string, roomId: string, nodeId: string)

  datatype Command = Configure(config: TaskConfig) | Publish(message: string)

  /** The settings of the node that the task's configuration depends on. */
  datatype Settings = Settings(
    enabled: bool, ssid: string, host: string, port: nat, username: string, password: string,
    useWebsockets: bool, roomId: string, nodeId: string)

  /** A text that does not fit its fixed-size field is dropped altogether. */
  function Bounded(s: string, capacity: nat): string {
    if |s| <= capacity then s else ""
  }

  predicate HomeAssistantConfigured(s: Settings) {
    s.enabled && s.ssid != "" && s.host != "" && s.nodeId != ""
  }

  function ConfigOf(s: Settings, wifi: bool): TaskConfig {
    TaskConfig(
      wifi, s.enabled && HomeAssistantConfigured(s), s.useWebsockets, Bounded(s.host, 96), s.port,
      Bounded(s.username, 64), Bounded(s.password, 64), Bounded(s.roomId, 64), Bounded(s.nodeId, 64))
  }

  /** What the task is told: the settings as they are, except that it is enabled only with a
      network, a broker and an identity, and that texts longer than their fields are left out. */
  ghost predicate Tells(c: TaskConfig, s: Settings, wifi: bool) {
    && c.wifiConnected == wifi && c.useWebsockets == s.useWebsockets && c.port == s.port
    && (c.enabled <==> s.enabled && s.ssid != "" && s.host != "" && s.nodeId != "")
    && (if |s.host| > 96 then c.host == "" else c.host == s.host)
    && (if |s.username| > 64 then c.username == "" else c.username == s.username)
    && (if |s.password| > 64 then c.password == "" else c.password == s.password)
    && (if |s.roomId| > 64 then c.roomId == "" else c.roomId == s.roomId)
    && (if |s.nodeId| > 64 then c.nodeId == "" else c.nodeId == s.nodeId)
  }

  lemma ConfigTells(c: TaskConfig, s: Settings, wifi: bool)
    ensures c == ConfigOf(s, wifi) <==> Tells(c, s, wifi)
  {
  }

  /** wrapping_add(1).max(1) */
  function NextGeneration(g: nat): nat {
    Max((g + 1) % 0x1_0000_0000, 1)
  }

  /** The generation n marks after g. */
  ghost function Advanced(g: nat, n: nat): nat
    requires 1 <= g
  {
    (g - 1 + n) % PERIOD + 1
  }

  lemma AdvancedOnce(g: nat, n: nat)
    requires 1 <= g
    ensures NextGeneration(Advanced(g, n)) == Advanced(g, n + 1)
  {
  }

  /** Two generations agree exactly when the marks between them are a multiple of the period, so
      a change can only go unnoticed after 2^32 - 1 of them. */
  lemma SameGeneration(g: nat, n: nat)
    requires 1 <= g <= PERIOD
    ensures Advanced(g, n) == g <==> n % PERIOD == 0
  {
  }

  /** The configuration the task will have once it has read the whole queue. */
  ghost function Newest(queue: seq<Command>, current: TaskConfig): TaskConfig {
    if queue == [] then current
    else if queue[|queue| - 1].Configure? then queue[|queue| - 1].config
    else Newest(queue[..|queue| - 1], current)
  }

  lemma {:induction false} NewestOfTail(queue: seq<Command>, current: TaskConfig)
    requires queue != []
    ensures Newest(queue, current)
         == Newest(queue[1..], if queue[0].Configure? then queue[0].config else current)
  {
    if |queue| > 1 {
      var n := |queue| - 1;
      assert queue[1..][n - 1] == queue[n];
      assert queue[1..][..n - 1] == queue[..n][1..];
      NewestOfTail(queue[..n], current);
    }
  }

  lemma NewestOfSent(queue: seq<Command>, command: Command, current: TaskConfig)
    ensures Newest(queue + [command], current)
         == if command.Configure? then command.config else Newest(queue, current)
  {
    assert (queue + [command])[..|queue|] == queue;
  }

  /** What the counters say about the last configuration sent, `marks` changes ago. */
  ghost predicate Agreed(s: Settings, newest: TaskConfig, generation: nat,
                         announced: nat, announcedWifi: bool, marks: nat)
  {
    && 1 <= generation <= PERIOD && announced <= PERIOD
    && (announced > 0 ==>
          && generation == Advanced(announced, marks)
          && newest.wifiConnected == announcedWifi
          && (marks == 0 ==> newest == ConfigOf(s, announcedWifi)))
  }

  lemma AgreedAfterMark(s: Settings, t: Settings, newest: TaskConfig,
                        generation: nat, announced: nat, announcedWifi: bool, marks: nat)
    requires Agreed(s, newest, generation, announced, announcedWifi, marks)
    ensures Agreed(t, newest, NextGeneration(generation), announced, announcedWifi, marks + 1)
  {
    if announced > 0 {
      AdvancedOnce(announced, marks);
    }
  }

  /** Once the counters match, the last configuration sent is that of the current settings,
      unless they changed 2^32 - 1 times since. */
  lemma AgreedMeans(s: Settings, wifi: bool, newest: TaskConfig, generation: nat,
                    announced: nat, announcedWifi: bool, marks: nat)
    requires Agreed(s, newest, generation, announced, announcedWifi, marks) && marks < PERIOD
    requires generation == announced && wifi == announcedWifi
    ensures newest == ConfigOf(s, wifi)
  {
    SameGeneration(announced, marks);
  }

  datatype HomeAssistantPayload = HomeAssistantPayload(
    ssid: string, host: string, port: nat, username: string, password: string, nodeId: string)

  datatype EndpointPayload = EndpointPayload(host: string, port: Option<nat>, useWebsockets: Option<bool>)

  predicate EndpointUsesWebsockets(host: string) {
    "ws://" <= host || "wss://" <= host || "http://" <= host || "https://" <= host
  }

  /** An endpoint asks for WebSockets when it names one of four schemes. */
  lemma EndpointExactly(host: string)
    ensures EndpointUsesWebsockets(host) <==>
      exists rest :: host == "ws://" + rest || host == "wss://" + rest || host == "http://" + rest || host == "https://" + rest
  {
    if "ws://" <= host { assert host == "ws://" + host[5..]; }
    if "wss://" <= host { assert host == "wss://" + host[6..]; }
    if "http://" <= host { assert host == "http://" + host[7..]; }
    if "https://" <= host { assert host == "https://" + host[8..]; }
  }

  /** What a step makes of the settings and the connection, and of nothing else. */
  datatype Node = Node(settings: Settings, wifi: bool)

  ghost function Stepped(n: Node, step: Step, defaultId: string): Node {
    var s := n.settings;
    match step
    case RoomConfig(room) => n.(settings := s.(roomId := room))
    case HomeAssistantConfig(payload) => Reconfigured(n, payload, defaultId)
    case WebsocketConfig(on) => n.(settings := s.(useWebsockets := on))
    case EndpointConfig(e) =>
      var there := if e.host == "" then s else s.(host := e.host);
      var at := match e.port case None => there case Some(port) => there.(port := port);
      n.(settings := match e.useWebsockets case None => at case Some(on) => at.(useWebsockets := on))
    case WifiDropped => n.(wifi := false)
    case WifiSeen(connected) => n.(wifi := connected)
    case _ => n
  }

  /** All of the payload is taken over, defaults fill what is empty, and without a network, a
      broker or an identity the connection is dropped. */
  ghost function Reconfigured(n: Node, payload: HomeAssistantPayload, defaultId: string): Node {
    var websockets := n.settings.useWebsockets || EndpointUsesWebsockets(payload.host);
    var room := if n.settings.roomId != "" then n.settings.roomId else "room-default";
    var id := if payload.nodeId != "" then payload.nodeId else defaultId;
    var s := Settings(true, payload.ssid, payload.host, payload.port, payload.username, payload.password, websockets, room, id);
    Node(s, n.wifi && payload.ssid != "" && payload.host != "" && id != "")
  }

  ghost function AfterSteps(n: Node, steps: seq<Step>, defaultId: string): Node {
    if steps == [] then n else Stepped(AfterSteps(n, steps[..|steps| - 1], defaultId), steps[|steps| - 1], defaultId)
  }

  /** One thing that can happen in the main loop, a command handler or the task. */
  datatype Step =
    | RoomConfig(roomId: string)
    | HomeAssistantConfig(payload: HomeAssistantPayload)
    | WebsocketConfig(enabled: bool)
    | EndpointConfig(endpoint: EndpointPayload)
    | WifiDropped
    | WifiSeen(connected: bool)
    | ProcessRuntime(summary: Option<string>)
    | SendPublish(message: string)
    | TaskReceives

  /** The queue after one turn of the main loop: the configuration first, if it has to go out,
      then the room summary, if there is one, each as far as there is room. */
  ghost function Queued(queue: seq<Command>, dirty: bool, config: TaskConfig, summary: Option<string>): seq<Command> {
    var first := if dirty && |queue| < CHANNEL_CAPACITY then queue + [Configure(config)] else queue;
    if summary.Some? && |first| < CHANNEL_CAPACITY then first + [Publish(summary.value)] else first
  }

  class Handoff {
    const defaultNodeId: string
    var enabled: bool
    var ssid: string
    var host: string
    var port: nat
    var username: string
    var password: string
    var useWebsockets: bool
    var roomId: string
    var nodeId: string
    var wifiConnected: bool
    var generation: nat
    var announced: nat
    var announcedWifi: bool
    var queue: seq<Command>
    var taskConfig: TaskConfig
    ghost var marks: nat

    function View(): Settings
      reads this
    {
      Settings(enabled, ssid, host, port, username, password, useWebsockets, roomId, nodeId)
    }

    /** The counters are right about what was last sent, had the settings been these. */
    ghost predicate AgreedFor(settings: Settings)
      reads this
    {
      Agreed(settings, Newest(queue, taskConfig), generation, announced, announcedWifi, marks)
    }

    ghost predicate Valid()
      reads this
    {
      && |queue| <= CHANNEL_CAPACITY
      && AgreedFor(View())
    }

    /** At boot nothing is announced yet, whatever the stored settings are. */
    constructor (stored: Settings, defaultId: string)
      ensures Valid() && View() == stored && !wifiConnected && queue == [] && marks == 0
      ensures generation == 1 && announced == 0 && !announcedWifi
      ensures taskConfig == TaskConfig(false, false, false, "", 0, "", "", "", "")
    {
      defaultNodeId := defaultId;
      enabled, ssid, host, port, username := stored.enabled, stored.ssid, stored.host, stored.port, stored.username;
      password, useWebsockets, roomId, nodeId := stored.password, stored.useWebsockets, stored.roomId, stored.nodeId;
      wifiConnected := false;
      generation, announced, announcedWifi := 1, 0, false;
      queue := [];
      taskConfig := TaskConfig(false, false, false, "", 0, "", "", "", "");
      marks := 0;
    }

    /** Called after the settings changed from what they were before. */
    method MarkDirty(ghost before: Settings)
      requires |queue| <= CHANNEL_CAPACITY && AgreedFor(before)
      modifies this`generation, this`marks
      ensures Valid() && generation == NextGeneration(old(generation)) && marks == old(marks) + 1
    {
      AgreedAfterMark(before, View(), Newest(queue, taskConfig), generation, announced, announcedWifi, marks);
      generation := NextGeneration(generation);
      marks := marks + 1;
    }

    method MarkWifiDisconnected(ghost before: Settings)
      requires |queue| <= CHANNEL_CAPACITY && AgreedFor(before)
      modifies this`wifiConnected, this`generation, this`marks
      ensures Valid() && !wifiConnected && generation == NextGeneration(old(generation)) && marks == old(marks) + 1
    {
      wifiConnected := false;
      MarkDirty(before);
    }

    method ApplyRoomConfig(room: string)
      requires Valid()
      modifies this`roomId, this`generation, this`marks
      ensures Valid() && View() == old(View()).(roomId := room)
      ensures generation == NextGeneration(old(generation)) && marks == old(marks) + 1
    {
      ghost var before := View();
      roomId := room;
      MarkDirty(before);
    }

    method ApplyWebsocketConfig(on: bool)
      requires Valid()
      modifies this`useWebsockets, this`generation, this`marks
      ensures Valid() && View() == old(View()).(useWebsockets := on)
      ensures generation == NextGeneration(old(generation)) && marks == old(marks) + 1
    {
      ghost var before := View();
      useWebsockets := on;
      MarkDirty(before);
    }

    /** Fields the payload leaves out keep their values. */
    method ApplyEndpoint(payload: EndpointPayload)
      requires Valid()
      modifies this`host, this`port, this`useWebsockets, this`generation, this`marks
      ensures Valid() && generation == NextGeneration(old(generation)) && marks == old(marks) + 1
      ensures host == if payload.host != "" then payload.host else old(host)
      ensures port == if payload.port.Some? then payload.port.value else old(port)
      ensures useWebsockets == if payload.useWebsockets.Some? then payload.useWebsockets.value else old(useWebsockets)
    {
      ghost var before := View();
      if payload.host != "" {
        host := payload.host;
      }
      if payload.port.Some? {
        port := payload.port.value;
      }
      if payload.useWebsockets.Some? {
        useWebsockets := payload.useWebsockets.value;
      }
      MarkDirty(before);
    }

    /** The connection state is also set without a mark, on connecting and on some errors. */
    method SetWifi(connected: bool)
      requires Valid()
      modifies this`wifiConnected
      ensures Valid() && wifiConnected == connected
    {
      wifiConnected := connected;
    }

    method TakeHomeAssistantConfig(payload: HomeAssistantPayload)
      modifies this`enabled, this`ssid, this`host, this`port, this`username, this`password, this`useWebsockets,
        this`nodeId, this`roomId
      ensures View() == Settings(
        true, payload.ssid, payload.host, payload.port, payload.username, payload.password,
        old(useWebsockets) || EndpointUsesWebsockets(payload.host),
        if old(roomId) == "" then DEFAULT_ROOM_ID else old(roomId),
        if payload.nodeId == "" then defaultNodeId else payload.nodeId)
    {
      enabled, ssid, host, port := true, payload.ssid, payload.host, payload.port;
      username, password := payload.username, payload.password;
      useWebsockets := useWebsockets || EndpointUsesWebsockets(payload.host);
      nodeId := if payload.nodeId == "" then defaultNodeId else payload.nodeId;
      if roomId == "" {
        roomId := DEFAULT_ROOM_ID;
      }
    }

    /** Settings that name no network or broker also drop the connection. */
    method ApplyHomeAssistantConfig(payload: HomeAssistantPayload)
      requires Valid()
      modifies this`enabled, this`ssid, this`host, this`port, this`username, this`password, this`useWebsockets,
        this`nodeId, this`roomId, this`wifiConnected, this`generation, this`marks
      ensures Valid() && marks > old(marks)
      ensures View() == Settings(
        true, payload.ssid, payload.host, payload.port, payload.username, payload.password,
        old(useWebsockets) || EndpointUsesWebsockets(payload.host),
        if old(roomId) == "" then DEFAULT_ROOM_ID else old(roomId),
        if payload.nodeId == "" then defaultNodeId else payload.nodeId)
      ensures wifiConnected == (old(wifiConnected) && HomeAssistantConfigured(View()))
    {
      ghost var before := View();
      TakeHomeAssistantConfig(payload);
      if !HomeAssistantConfigured(View()) {
        MarkWifiDisconnected(before);
        before := View();
      }
      MarkDirty(before);
    }

    /** Refuses, and changes nothing, when the channel is full. */
    method TrySend(command: Command) returns (ok: bool)
      requires |queue| <= CHANNEL_CAPACITY
      modifies this`queue
      ensures ok <==> |old(queue)| < CHANNEL_CAPACITY
      ensures queue == if ok then old(queue) + [command] else old(queue)
    {
      ok := |queue| < CHANNEL_CAPACITY;
      if ok {
        queue := queue + [command];
      }
    }

    method TryPublish(message: string) returns (ok: bool)
      requires Valid()
      modifies this`queue
      ensures Valid() && (ok <==> |old(queue)| < CHANNEL_CAPACITY)
      ensures queue == if ok then old(queue) + [Publish(message)] else old(queue)
    {
      NewestOfSent(queue, Publish(message), taskConfig);
      ok := TrySend(Publish(message));
    }

    predicate Dirty()
      reads this
    {
      generation != announced || wifiConnected != announcedWifi
    }

    /** Sends the configuration when something changed; a full channel leaves it for later. */
    method Announce()
      requires Valid()
      modifies this`queue, this`announced, this`announcedWifi, this`marks
      ensures Valid()
      ensures old(Dirty()) && |old(queue)| < CHANNEL_CAPACITY ==>
        !Dirty() && marks == 0 && queue == old(queue) + [Configure(ConfigOf(View(), wifiConnected))]
      ensures !(old(Dirty()) && |old(queue)| < CHANNEL_CAPACITY) ==>
        queue == old(queue) && announced == old(announced) && announcedWifi == old(announcedWifi)
        && marks == old(marks)
    {
      if Dirty() {
        var config := ConfigOf(View(), wifiConnected);
        NewestOfSent(queue, Configure(config), taskConfig);
        var ok := TrySend(Configure(config));
        if ok {
          announced, announcedWifi, marks := generation, wifiConnected, 0;
          SameGeneration(generation, 0);
        }
      }
    }

    method ProcessMqttRuntime(summary: Option<string>)
      requires Valid()
      modifies this`queue, this`announced, this`announcedWifi, this`marks
      ensures Valid()
      ensures |old(queue)| < CHANNEL_CAPACITY ==> !Dirty()
      ensures marks == if old(Dirty()) && |old(queue)| < CHANNEL_CAPACITY then 0 else old(marks)
      ensures queue == Queued(old(queue), old(Dirty()), ConfigOf(View(), wifiConnected),
                              if wifiConnected then summary else None)
    {
      Announce();
      if wifiConnected && summary.Some? {
        var ok := TryPublish(summary.value);
      }
    }

    /** The task takes the oldest command; this never changes what it will end up with. */
    method TaskReceive() returns (command: Option<Command>)
      requires Valid()
      modifies this`queue, this`taskConfig
      ensures Valid() && Newest(queue, taskConfig) == old(Newest(queue, taskConfig))
      ensures command == if old(queue) == [] then None else Some(old(queue)[0])
      ensures old(queue) != [] ==> queue == old(queue)[1..]
      ensures taskConfig == if command.Some? && command.value.Configure? then command.value.config else old(taskConfig)
    {
      if queue == [] {
        return None;
      }
      NewestOfTail(queue, taskConfig);
      command := Some(queue[0]);
      if queue[0].Configure? {
        taskConfig := queue[0].config;
      }
      queue := queue[1..];
    }

    ghost function Now(): Node
      reads this
    {
      Node(View(), wifiConnected)
    }

    /** One step: the settings become what it says, a message joins the queue if there is room,
        the configuration is announced with the room there is, and the task takes the oldest. */
    method Perform(step: Step)
      requires Valid()
      modifies this
      ensures Valid() && Now() == Stepped(old(Now()), step, defaultNodeId)
      ensures step.SendPublish? && |old(queue)| < 4 ==> queue == old(queue) + [Publish(step.message)]
      ensures step.TaskReceives? && old(queue) != [] ==> queue == old(queue)[1..]
      ensures step.ProcessRuntime? && |old(queue)| < 4 ==> !Dirty()
    {
      if step.ProcessRuntime? || step.SendPublish? || step.TaskReceives? {
        Exchange(step);
      } else {
        Change(step);
      }
    }

    method Change(step: Step)
      requires Valid() && !step.ProcessRuntime? && !step.SendPublish? && !step.TaskReceives?
      modifies this
      ensures Valid() && Now() == Stepped(old(Now()), step, defaultNodeId)
      ensures queue == old(queue) && taskConfig == old(taskConfig)
    {
      match step
      case RoomConfig(room) => ApplyRoomConfig(room);
      case HomeAssistantConfig(payload) => ApplyHomeAssistantConfig(payload);
      case WebsocketConfig(on) => ApplyWebsocketConfig(on);
      case EndpointConfig(endpoint) => ApplyEndpoint(endpoint);
      case WifiDropped => MarkWifiDisconnected(View());
      case WifiSeen(connected) => SetWifi(connected);
    }

    method Exchange(step: Step)
      requires Valid() && (step.ProcessRuntime? || step.SendPublish? || step.TaskReceives?)
      modifies this`queue, this`taskConfig, this`announced, this`announcedWifi, this`marks
      ensures Valid() && marks <= old(marks)
      ensures step.SendPublish? ==>
        queue == if |old(queue)| < 4 then old(queue) + [Publish(step.message)] else old(queue)
      ensures step.TaskReceives? && old(queue) != [] ==> queue == old(queue)[1..]
      ensures step.ProcessRuntime? && |old(queue)| < 4 ==> !Dirty()
      ensures step.ProcessRuntime? ==>
        queue == Queued(old(queue), old(Dirty()), ConfigOf(View(), wifiConnected), if wifiConnected then step.summary else None)
    {
      match step
      case ProcessRuntime(summary) => ProcessMqttRuntime(summary);
      case SendPublish(message) => var ok := TryPublish(message);
      case TaskReceives => var command := TaskReceive();
    }

    /** Any interleaving keeps the agreement, and leaves the settings that its steps call for. */
    method Run(steps: seq<Step>)
      requires Valid()
      modifies this
      ensures Valid() && Now() == AfterSteps(old(Now()), steps, defaultNodeId)
    {
      ghost var first := Now();
      for i := 0 to |steps|
        invariant Valid() && Now() == AfterSteps(first, steps[..i], defaultNodeId)
      {
        assert steps[..i + 1][..i] == steps[..i];
        Perform(steps[i]);
      }
      assert steps[..|steps|] == steps;
    }

    /** The task reads until its queue is empty. */
    method Drain()
      requires Valid()
      modifies this`queue, this`taskConfig
      ensures Valid() && queue == [] && taskConfig == old(Newest(queue, taskConfig))
    {
      while queue != []
        invariant Valid() && Newest(queue, taskConfig) == old(Newest(queue, taskConfig))
        decreases |queue|
      {
        var command := TaskReceive();
      }
    }

    /** After any run, once the task has read its queue, the main loop has gone round and the task
        has read again, it has the configuration that the steps call for: unless they happen to
        have moved the generation all the way round since the last announcement. */
    method RunAndSettle(steps: seq<Step>)
      requires Valid()
      modifies this
      ensures Valid() && queue == []
      ensures var now := AfterSteps(old(Now()), steps, defaultNodeId);
        Now() == now && (marks < 0xFFFF_FFFF ==> Tells(taskConfig, now.settings, now.wifi))
    {
      Run(steps);
      Drain();
      ProcessMqttRuntime(None);
      Drain();
      if marks < PERIOD {
        Synchronized();
        ConfigTells(taskConfig, View(), wifiConnected);
      }
    }

    /** Once the counters match, what the task has or is about to read is the configuration of
        the current settings, unless they changed 2^32 - 1 times since the last announcement. */
    lemma Synchronized()
      requires Valid() && !Dirty() && marks < PERIOD
      ensures Newest(queue, taskConfig) == ConfigOf(View(), wifiConnected)
      ensures queue == [] ==> taskConfig == ConfigOf(View(), wifiConnected)
      ensures Tells(Newest(queue, taskConfig), View(), wifiConnected)
    {
      ConfigTells(ConfigOf(View(), wifiConnected), View(), wifiConnected);
      AgreedMeans(View(), wifiConnected, Newest(queue, taskConfig), generation, announced, announcedWifi, marks);
    }
  }
}
