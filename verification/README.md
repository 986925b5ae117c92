# Route searcher and panda chat server, modelled in Dafny

This project models two sequential cores.

**The route searcher.** This is `Searcher` in A4/script.py:
- `build_graph` turns a table of edge records into an adjacency map.
- `dfs_paths` enumerates the cycle-free paths between two nodes.
- `stp_dfs` and `fdp_dfs` pick the enumerated path of least total `time` or `dementors`.
- `dijkstra` runs a priority-queue search over one integer weight key.

Edges are records with natural-number weights. The "no path" answers (`None` and `(inf, [])`) are `Option.None`.

**The chat server's per-connection logic.** This is A3/Server.py, modelled one session at a time:
- The `clients` dictionary is a field of class `ChatServer.Server`. It is a sequence of (socket, name) pairs kept in insertion order, because the `@grove` reply and every broadcast follow that order.
- Sockets are numbers.
- Each successful `sendall` is appended to the field `sent`.
- The sockets whose `sendall` raises form a fixed set, `broken`.
- The random emoji and fact choices come with each read as a `Draw`.
- `ChatSession` states, as pure functions, what a session sends: `Fanout`, `Step`, `Steps` and `Session`. The class's methods are proved to send exactly that.

Modules:
- `Graph`: `build_graph` and the vocabulary of walks.
- `Dfs`: `dfs_paths`.
- `Selection`: `stp_dfs` and `fdp_dfs`.
- `SearchInvariant`: the loop invariant of `dijkstra` and its lemmas.
- `ShortestPath`: `dijkstra`.
- `ClientTable`: the `clients` dictionary.
- `ChatProtocol`: texts, decoration and the command classifier.
- `ChatSession`: what a session sends.
- `ChatServer`: the server class.
- `Wrappers`: `Option`.

Two details of the code that the model keeps:
- A chat line is broadcast with `sender_socket=None` (A3/Server.py:73), so the sender gets its own line back (`ChatSession.StepsChatEcho`).
- The farewell is "<name> has left the Panda Chat." (A3/Server.py:68).

## Model

| member | source | states |
|---|---|---|
| Graph.BuildGraph | A4/script.py:8-16 | The keys of the map are exactly the `start` values of the table, and `graph[s]` lists `(end, edge)` for the edges starting at `s`, in table order. |
| Graph.Outgoing | A4/script.py:13-15 | The list `build_graph` builds under `s`: `(edge.end, edge)` for each edge of the table starting at `s`, in table order. `OutgoingMembers`, `OutgoingCounts` and `OutgoingAppend` characterise it. |
| Graph.OutgoingMembers | A4/script.py:13-15 | An entry is under `s` exactly when it is `(e.end, e)` for an edge `e` of the table with `e.start == s`. No entry is invented. |
| Graph.OutgoingCounts | A4/script.py:10-15 | Each edge occurs under its own start exactly as many times as it occurs in the table. No edge is lost or duplicated. |
| Graph.OutgoingAppend | A4/script.py:10-15 | The entries of a concatenated table are those of the first part followed by those of the second: table order is kept. |
| Graph.SimpleRouteExists | A4/script.py:26-27 | Whenever a walk leads from `s` to `t`, a walk without repeated nodes does too. This is why skipping visited neighbours loses no reachable goal. |
| Dfs.Paths | A4/script.py:18-27 | The paths one call of the generator yields, in yield order: the given path when `start` is the goal, then what the loop over `graph[start]` yields. `PathsSound` and `PathsComplete` characterise it. |
| Dfs.Explore | A4/script.py:25-27 | The paths the loop over `graph[start]` yields from entry `i` on: for each neighbour not on the path, the paths of the recursive call on the extended path. `ExploreSound` and `ExploreIncludes` characterise it. |
| Dfs.DfsPaths | A4/script.py:18-20 | `dfs_paths(start, goal)`: the search started from the one-node path `[start]`. `DfsPathsExactly` states what it yields. |
| Dfs.PathsSound | A4/script.py:18-27 | Every path a call yields extends the given path, ends at the goal, follows graph entries and repeats no node. It equals the given path only when `start` is the goal. |
| Dfs.ExploreSound | A4/script.py:25-27 | Every path the loop over `graph[start]` yields strictly extends the given path, follows graph entries, repeats no node and ends at the goal. |
| Dfs.WalkExtend | A4/script.py:26-27 | Appending a neighbour of the last node keeps a walk a walk, and appending a node not on the path keeps it simple. |
| Dfs.ExploreIncludes | A4/script.py:25-27 | A path yielded through entry `j` of `graph[start]` is yielded by the loop started at any earlier entry. |
| Dfs.PathsComplete | A4/script.py:18-27 | A simple walk ending at the goal is yielded by the recursive call holding any non-empty prefix of it. |
| Dfs.DfsPathsExactly | A4/script.py:18-27 | `dfs_paths(start, goal)` yields `p` if and only if `p` is a walk from `start` to `goal` with no repeated node. |
| Dfs.DfsPathsEmpty | A4/script.py:18-27 | Nothing is yielded if and only if no walk at all leads from `start` to `goal`. |
| Dfs.DfsPathsAtGoal | A4/script.py:21-27 | When `start == goal` the only path yielded is `[start]`. |
| Dfs.DfsPathsDeadEnd | A4/script.py:21-24 | A start without outgoing edges yields `[start]` if it is the goal and nothing otherwise. |
| Selection.FirstWeight | A4/script.py:35-38 | The weight the inner loop adds for one step: that of the first entry leading to the next node, or nothing. `FirstWeightIsFirstArc` and `FirstWeightMissing` characterise it. |
| Selection.PathCost | A4/script.py:33-38 | The total `stp_dfs` and `fdp_dfs` compute for a path: the sum of `FirstWeight` over consecutive pairs. It is defined only when every node but the last is a key, as `graph[path[i]]` demands. `CostOf` is proved to compute it. |
| Selection.FirstWeightIsFirstArc | A4/script.py:35-38 | The weight added for a step is that of the first entry of `graph[path[i]]` leading to `path[i+1]`. |
| Selection.FirstWeightMissing | A4/script.py:35-38 | When no entry leads to `path[i+1]`, nothing is added for that step. |
| Selection.WalkInGraph | A4/script.py:34-35 | Every node of a walk but the last is a key of the graph, so the lookups `graph[path[i]]` succeed. |
| Selection.CostOf | A4/script.py:33-38 | The nested loops compute `PathCost`: per consecutive pair, the weight of the first matching entry. |
| Selection.Cheapest | A4/script.py:30-42 | The loop returns `None` exactly for an empty list of paths. Otherwise it returns a path whose cost is at most every path's cost and strictly below every earlier path's cost (the strict `<` keeps the first). |
| Selection.MinCostPath | A4/script.py:29-42 | `None` exactly when `dfs_paths` yields nothing, which is exactly when no walk reaches the goal. Otherwise the result is a simple route, and it is the first enumerated path of least summed key. |
| Selection.StpDfs | A4/script.py:29-42 | `stp_dfs`: `None` exactly when the goal is unreachable; otherwise the first enumerated path of least total `time`. |
| Selection.FdpDfs | A4/script.py:44-57 | `fdp_dfs`: `None` exactly when the goal is unreachable; otherwise the first enumerated path of fewest total `dementors`. |
| SearchInvariant.Realizes | A4/script.py:70-72 | Some choice of one adjacency entry per step of the path has weights summing to the cost, as the pushes at line 72 accumulate them. `RealizesWalk` and `RealizesExtend` characterise it. |
| SearchInvariant.WalkCost | A4/script.py:70-71 | The least cost of a walk: the cheapest entry per step. `RealizesWalk` shows it bounds every realised cost from below. |
| SearchInvariant.MinArcWeight | A4/script.py:70-71 | The cheapest weight among the entries from a node to `v` is attained by one of them and bounds all of them from below. |
| SearchInvariant.RealizesWalk | A4/script.py:70-72 | A path whose cost is a sum of entry weights along it is a walk, and that cost is at least the walk's least cost. |
| SearchInvariant.RealizesExtend | A4/script.py:70-72 | Pushing `(cost + edge[key], neighbor, path + [node])` extends a realized cost by one entry's weight. |
| SearchInvariant.FrontierEntry | A4/script.py:63-72 | While the queue covers every settled node's neighbours, any walk from `start` to an unsettled node has a queue entry no dearer than the walk. |
| SearchInvariant.GoalReached | A4/script.py:64-66 | A least entry popped at the goal gives a route from `start` to `goal` whose cost equals its least walk cost and is optimal. |
| SearchInvariant.LeastSettled | A4/script.py:64-69 | A least entry popped at an unvisited node carries that node's optimal cost. |
| SearchInvariant.FrontierExpand | A4/script.py:67-72 | Marking a least entry's node as visited and pushing its neighbours keeps every settled cost optimal and every settled node's neighbours covered by the queue. |
| SearchInvariant.SearchInvInit | A4/script.py:60-61 | The initial queue `[(0, start, [])]` with nothing visited satisfies the loop invariant. |
| SearchInvariant.SearchInvDiscard | A4/script.py:67-68 | Dropping a popped entry whose node is already visited keeps the invariant. |
| SearchInvariant.SearchInvExpand | A4/script.py:69-72 | Visiting a popped least entry's node and pushing its neighbours keeps the invariant. Each node is expanded at most once and the goal never. |
| SearchInvariant.SearchAnswer | A4/script.py:65-66 | At the goal, the returned `(cost, path + [node])` is a route whose cost is realized by entry weights, equals its least walk cost, and is at most the cost of every walk to the goal. |
| SearchInvariant.SearchExhausted | A4/script.py:63-73 | When the queue runs empty before the goal is popped, no walk leads from `start` to `goal`. |
| ShortestPath.ArgMin | A4/script.py:64 | The popped entry has the least cost in the queue. |
| ShortestPath.PushNeighbours | A4/script.py:70-72 | The pop removes exactly the chosen entry, and one entry per outgoing entry of the node is pushed, in adjacency order. |
| ShortestPath.Settle | A4/script.py:67-72 | One pass for a popped non-goal entry. If its node is already visited, the entry is dropped and `visited` and the log are unchanged (`continue`). Otherwise the node is added to `visited` and logged once, the entry is removed, and one entry `(cost + edge[key], neighbor, path + [node])` is pushed per entry of `graph.get(node, [])`, in order (`Expanded`). Either way the loop invariant is kept, and either a new node is visited or the queue shrinks, so the loop ends. |
| ShortestPath.Dijkstra | A4/script.py:59-73 | `None` only when no walk reaches the goal; since a `Some` answer is a route, `None` is returned exactly then. Otherwise the path is a route from `start` to `goal` realized by entry weights. Its cost equals its least walk cost and is at most that of every walk to the goal. `start == goal` gives `(0, [start])`. The log of expansions, to which `Settle` adds a node exactly when it pushes that node's neighbours, repeats no node and never holds the goal. |
| ChatProtocol.Decorate | A3/Server.py:24 | `f"{e1} {message} {e2}"` with the two drawn emojis. `DecorateFrames` characterises it. |
| ChatProtocol.Welcome | A3/Server.py:46 | The welcome text sent to the new client. |
| ChatProtocol.Joined | A3/Server.py:50 | The arrival text broadcast to the others. |
| ChatProtocol.FactReply | A3/Server.py:61 | The `@bamboo` reply around the drawn fact. |
| ChatProtocol.Farewell | A3/Server.py:68 | The `@leaves` farewell text. |
| ChatProtocol.ChatLine | A3/Server.py:73 | The chat text: the name, a colon and the received line unstripped. |
| ChatProtocol.Join | A3/Server.py:64 | `", ".join(names)`. `JoinLists` states that every name occurs in it. |
| ChatProtocol.GroveReply | A3/Server.py:64-65 | The `@grove` reply listing the names. `GroveListsSelf` states that a new client finds itself in it. |
| ChatProtocol.TrimLeft | A3/Server.py:59 | `lstrip()`: drops leading `isspace` characters. `TrimLeftSuffix` characterises it. |
| ChatProtocol.TrimRight | A3/Server.py:59 | `rstrip()`: drops trailing `isspace` characters. `TrimRightPrefix` characterises it. |
| ChatProtocol.Strip | A3/Server.py:59 | `msg.strip()`. `StripFrames` and `StripPadded` characterise it. |
| ChatProtocol.Classify | A3/Server.py:59-71 | The `if`/`elif` chain on `msg.strip()`: `@bamboo`, `@grove`, `@leaves`, else chat. `ClassifyCommand` and `ClassifyChat` characterise it. |
| ChatProtocol.DecorateFrames | A3/Server.py:24 | A decorated text is a panda emoji, a space, the message unchanged, a space and a panda emoji. |
| ChatProtocol.DisplayName | A3/Server.py:40-42 | The name is never empty: it is what the client sent, and exactly "MysteryPanda" when that was empty. |
| ChatProtocol.JoinLists | A3/Server.py:64 | Every name in the list occurs whole in the `", "`-joined text. |
| ChatProtocol.TrimLeftSuffix | A3/Server.py:59 | Left stripping keeps a suffix, removes only whitespace, and stops at a non-whitespace character. |
| ChatProtocol.TrimRightPrefix | A3/Server.py:59 | Right stripping keeps a prefix, removes only whitespace, and stops at a non-whitespace character. |
| ChatProtocol.StripFrames | A3/Server.py:59 | `msg.strip()` is the line less surrounding whitespace, and it neither starts nor ends with whitespace. |
| ChatProtocol.StripPadded | A3/Server.py:59 | Stripping a word padded with whitespace on both sides gives back the word, when the word's own ends are not whitespace. |
| ChatProtocol.ClassifyCommand | A3/Server.py:59-70 | A line selects `@bamboo`, `@grove` or `@leaves` if and only if it is that word with only whitespace around it. |
| ChatProtocol.ClassifyChat | A3/Server.py:71-73 | A line is ordinary chat if and only if it is none of the three command words, whitespace aside. |
| ChatProtocol.ClassifyEmpty | A3/Server.py:55-59 | The empty read is never taken for a command. |
| ClientTable.Keys | A3/Server.py:26 | The sockets of `clients.items()`, in insertion order. |
| ClientTable.Values | A3/Server.py:64 | `clients.values()`, in insertion order. `PutValuesFresh` states how registration extends it. |
| ClientTable.Lookup | A3/Server.py:80-81 | `clients.get(c)`: the name under `c`, or nothing. `LookupKeys` ties it to membership. |
| ClientTable.Put | A3/Server.py:44 | `clients[c] = name`. `PutLookup`, `PutKeys` and `PutDistinct` characterise it. |
| ClientTable.Remove | A3/Server.py:80-82 | The cleanup `if c in clients: del clients[c]`. `RemoveLookup`, `RemoveAbsent`, `RemoveTwice` and `RemoveDistinct` characterise it. |
| ClientTable.LookupKeys | A3/Server.py:80 | `client_socket in clients` holds exactly when a lookup of the socket finds a name. |
| ClientTable.PutLookup | A3/Server.py:44 | After `clients[c] = name`, `c` maps to `name` and every other socket maps to what it did. |
| ClientTable.PutKeys | A3/Server.py:44 | Assignment keeps the order of the sockets and appends a new socket at the end. |
| ClientTable.PutValuesFresh | A3/Server.py:44 | Registering a new socket appends its name to `clients.values()`. |
| ClientTable.PutDistinct | A3/Server.py:44 | Assignment keeps every socket in the dictionary once. |
| ClientTable.RemoveLookup | A3/Server.py:79-82 | After the cleanup, nothing is found under `c` and every other socket maps to what it did. |
| ClientTable.RemoveAbsent | A3/Server.py:80-82 | Cleaning up a socket that is not in the dictionary changes nothing. |
| ClientTable.RemoveTwice | A3/Server.py:79-82 | The cleanup is idempotent. |
| ClientTable.PutRemoveFresh | A3/Server.py:79-82 | Registering a new socket and cleaning it up restores the dictionary. |
| ClientTable.RemoveDistinct | A3/Server.py:80-82 | Deletion keeps every socket once and adds none. |
| ChatSession.Fanout | A3/Server.py:26-31 | What one broadcast sends: the text to each socket in table order, except the sender and the sockets whose send fails. `FanoutRecipients` states its recipients exactly. |
| ChatSession.Step | A3/Server.py:55-73 | What one read sends and whether the loop goes on. An empty read stops with nothing sent. `@bamboo` and `@grove` reply to the client, and a failed reply stops. `@leaves` broadcasts the farewell and stops. Chat is broadcast to all and goes on. `StepRecipients`, `StepDirectReply` and `StepsLeaves` characterise it. |
| ChatSession.Steps | A3/Server.py:53-73 | What the `while True` loop sends for the reads, stopping where a read stops it. `StepsRecipients`, `StepsIgnoreAfterEnd` and `StepsClosed` characterise it. |
| ChatSession.Served | A3/Server.py:46-73 | What the session of a registered client sends: the welcome, then the arrival broadcast and the loop; nothing if the welcome fails. |
| ChatSession.Session | A3/Server.py:33-73 | What `handle_client` sends, with the client registered under `DisplayName(first)`. `SessionRecipients` and `SessionAnnouncesJoin` characterise it. |
| ChatSession.FanoutRecipients | A3/Server.py:26-31 | A broadcast reaches a socket if and only if it is registered, is not the sender, and its send succeeds. A failing socket does not stop delivery to the others. |
| ChatSession.FanoutAppend | A3/Server.py:26-31 | The broadcast follows the dictionary's order: a table split in two is broadcast to part by part. |
| ChatSession.FanoutCount | A3/Server.py:26-27 | With no failing socket, a registered sender's broadcast reaches one socket fewer than there are clients. |
| ChatSession.FanoutAll | A3/Server.py:26-27 | With no failing socket and a sender not in the dictionary, every client gets the broadcast. |
| ChatSession.StepsAt | A3/Server.py:53-73 | The loop at read `i` sends what read `i` sends, followed by the rest of the loop only if read `i` does not end it. |
| ChatSession.StepsAdvance | A3/Server.py:53-73 | What has been sent plus the loop from read `i` equals what is sent after read `i` plus the rest of the loop. |
| ChatSession.StepRecipients | A3/Server.py:58-73 | One read sends only to the client itself or to registered sockets, never to a socket whose send fails. |
| ChatSession.StepsRecipients | A3/Server.py:53-73 | The loop sends only to the client itself or to registered sockets, never to a socket whose send fails. |
| ChatSession.SessionRecipients | A3/Server.py:33-73 | A session sends only to sockets registered once the client is, and never to one whose send fails. |
| ChatSession.SessionAnnouncesJoin | A3/Server.py:46-50 | Once welcomed, the newcomer's arrival is announced to every other registered socket whose send succeeds. |
| ChatSession.StepsIgnoreAfterEnd | A3/Server.py:55-70 | Nothing received after an empty read or `@leaves` is handled. |
| ChatSession.StepsLeaves | A3/Server.py:66-70 | `@leaves` sends only the farewell, exactly to the other registered sockets whose send succeeds, and ends the loop. |
| ChatSession.StepDirectReply | A3/Server.py:59-65 | `@bamboo` and `@grove` send one message, to the sender alone, and the loop goes on. The fact is one of the five. The grove reply lists the dictionary's names. |
| ChatSession.StepsClosed | A3/Server.py:54-56 | An empty read ends the loop with nothing sent: there is no farewell for a dropped connection. |
| ChatSession.StepsChatEcho | A3/Server.py:71-73 | A chat line is broadcast with `sender=None`, so the registered sender gets its own, unstripped line back. |
| ChatSession.GroveListsSelf | A3/Server.py:62-65 | A newly registered client finds its own name in the `@grove` reply. |
| ChatServer.Server.constructor | A3/Server.py:16 | The dictionary starts empty and nothing has been sent. |
| ChatServer.Server.Send | A3/Server.py:47 | A send succeeds exactly on a socket not in `broken`, and only a successful send is recorded. |
| ChatServer.Server.Broadcast | A3/Server.py:19-31 | The loop sends the once-decorated text to the sockets `Fanout` names, in dictionary order. The dictionary is untouched. |
| ChatServer.Server.HandleRead | A3/Server.py:54-73 | One pass of the loop sends what `Step` says and goes on exactly when `Step` does. |
| ChatServer.Server.Advance | A3/Server.py:53-73 | One pass, stated against the remaining reads: the output so far plus the rest of the loop is unchanged. |
| ChatServer.Server.Listen | A3/Server.py:53-73 | The `while True` loop sends exactly what `Steps` says for the reads. |
| ChatServer.Server.Register | A3/Server.py:43-44 | Registration maps the socket to its name, leaves every other entry as it was and keeps each socket once. |
| ChatServer.Server.Serve | A3/Server.py:46-73 | After registration the session sends the welcome, then the announcement and the loop's messages. A failed welcome ends it with nothing sent. |
| ChatServer.Server.Cleanup | A3/Server.py:79-82 | The socket's entry is deleted if present and nothing changes if absent. Every other entry is kept. |
| ChatServer.Server.HandleClient | A3/Server.py:33-83 | The session sends exactly what `Session` says. Afterwards the socket is gone from the dictionary and every other socket maps to what it did. |

## Left out

- Threads, `clients_lock` and concurrent sessions: sessions run one after another on the shared state. The lock being held during `sendall` is not modelled.
- `start_server`, socket creation, `accept`, `close` and the log lines written with `print`. `sendall` is `Send`, which succeeds unless the socket is in `broken`.
- The set of failing sockets is fixed for the server's lifetime: a socket cannot start failing part-way through a session.
- `random.choice`: each message's choices come with its read as a `Draw`, two emoji indices and a fact index.
- Byte encoding and decoding, `recv(1024)` framing and decoding errors: a read is a decoded string, and the end of the read list is the connection closing. A `recv` that raises is not modelled.
- A3/Client.py (the desktop client) and A4/visualize.py (drawing with networkx and matplotlib) are not part of this model.
- The JSON loading and printing of A4/script.py's `__main__` are not part of this model.
- The default `weight_key="hops"` of `dijkstra` is not a default in the model: `ShortestPath.Dijkstra` takes the key, and `Hops` gives the default.
- `float('inf')` as a number: `stp_dfs`, `fdp_dfs` and `dijkstra` return `Option.None` for "no path".
- The `heapq` order among entries of equal cost: a pop takes the first entry of least cost, and `dijkstra` is specified by its result, not by its pop order.
- Python's generator laziness in `dfs_paths`: `Paths` returns the whole sequence of yielded paths, in yield order.
- Weight keys other than the four the edge records carry (`time`, `dementors`, `hops`, `distance`) are not modelled. A missing key would raise `KeyError` in the source.
