# Verification of the video CDN: link-state name server, bitrate-adapting proxy, DNS encoding

The repository is a small content-distribution network. `lsa/genlsa.py` prints link-state announcements
for a topology; the name server (`src/nameserver.c`, `src/dijkstra.c`) loads them, computes shortest paths
and answers DNS requests with a video server's address, either the nearest one or round robin; the proxy
(`src/handle.c`, `src/bitrate.c`) stands between a player and a server, rewrites the manifest and each chunk
request, and adapts the bitrate to the throughput it measures; `src/mydns.c` encodes and reads the DNS packets.

This project models that code in Dafny and proves what it does. Loops and in-place updates stay loops
and in-place updates: methods over arrays, and classes for the linked lists `graph_list`, `tracker_head`
and the server list. Each method is tied to a function of its input or old state, and the properties
are lemmas about those functions, over every input and every run.

| file | what it covers |
|---|---|
| `Text.dfy` | `%d`, `atoi`, `fscanf("%s")` and `strtok`, joining |
| `Walks.dfy` | walks, reachability and hop distance: the reference for everything about topologies |
| `Topology.dfy`, `Bfs.dfy`, `Generator.dfy` | `lsa/genlsa.py`: reading links, breadth-first rounds, printed announcements and losses |
| `Database.dfy`, `GraphList.dfy` | `graph_init` on values and on the linked list; `exist_route` and `query_dns` |
| `ShortestPaths.dfy`, `Selection.dfy` | `dijkstra`, `minDistance`; what distances over the matrix mean; which server is picked, and for which client that is right |
| `EndToEnd.dfy` | from the link file, through losses, printing, parsing and distances, to the answer |
| `HttpText.dfy`, `Manifest.dfy`, `Framing.dfy` | the header scanner and line readers; the manifest filter and header rewriting; whether the result is framed |
| `PlainReading.dfy`, `PlainHeader.dfy`, `MessageSize.dfy` | when manifest lines and header fields are taken for what they are; when the rewritten message fits its buffer |
| `Bitrate.dfy`, `Rewrite.dfy`, `Sessions.dfy`, `Tracker.dfy` | throughput average and ladder; request rewriting; runs of sessions on values and on the linked lists |
| `Wire.dfy`, `Servers.dfy`, `RoundRobin.dfy` | names, packets and addresses on the wire; the server list; round-robin answers |
| `NameService.dfy` | from the lines of the servers file to the address in the answer |

## Where the code and its evident intent part

The model follows the code. Each departure below is a statement of the model, with the exact condition
under which the code still does what was meant.

- The source of the shortest paths is the literal 0 (src/dijkstra.c:167), although the repository's README:39-40
  promises the server nearest to the client. `Selection.AnswerRightExactlyForNodeZero`: right for every list of servers
  if and only if the client is node 0; `Selection.WrongForOthers` gives a failing list for every other client. Node 0 is
  the node whose first announcement came last: without losses the last newcomer of a round, as far from the sink as a node
  can be (`EndToEnd.OriginIsFarthest`).
- A server is taken to be at a node when the node's name is a prefix of the server's text (src/dijkstra.c:198).
  `Selection.PickOwnNearestExactly`: the server picked sits nearest to the source, for every source and every list of
  servers that sit at nodes, if and only if no node name is a prefix of another. `Selection.PrefixMisleads`: 10.0.0.1 and
  10.0.0.10.
- A stale announcement is skipped without its neighbour token (src/dijkstra.c:64-67), and the reader loses its
  place. `Database.LoadIsNewestWins`: it keeps its place if and only if no sender's numbers ever decrease, which
  the generator guarantees (`Generator.AllLsasSorted`); `Database.StaleRecordDerails` is a concrete failure.
- The sink announces itself only if it is linked to itself, so walks through it are otherwise invisible.
  `EndToEnd.DistancesAreHops`: all distances are exact if and only if the sink is heard, or every two neighbours of the
  sink are within two hops of each other without it. A sink with one neighbour qualifies; `EndToEnd.SinkOnTheWay` is the
  path a - s - b, which does not.
- "Breadth-first order starting at the sink" is not literally so when the sink is linked to itself or twice to the same
  node: `Bfs.RoundAnnouncesOnce` and `Bfs.RoundInHopOrder` give the exact conditions, `Bfs.DoubleLinkRepeats` and
  `Bfs.SelfLinkOutOfOrder` fail them.
- The header scanner also stops at things that are not CRLFCRLF (src/handle.c:127-143). `HttpText.ScannerStopsAtFirstMatch`
  says what it looks for, and `HttpText.ScannerExactly` that it finds the end of a header if and only if no such pattern ends
  before: a CR, later a run of LFs with a CR directly behind it, and later an LF, with no other LF in between.
  `HttpText.ScannerCanBeEarly` is a header that it cuts.
- `start_with` skips leading blanks of the line, but each also shortens the pattern (src/handle.c:206-212).
  `HttpText.StartWithRightExactly`: it accepts everything that starts with the pattern after its blanks, and nothing else if
  and only if the blanks do not make up for missing characters; `HttpText.IndentHarmlessExactly`: no indentation is
  harmless for all lines. What follows from it:
  - a manifest line is filtered as what it is if and only if it is clear (`PlainReading.LineReadExactly`);
    `PlainReading.SevenBlanksMisread` loses a media line;
  - a response is recognised by its Content-Type if and only if no field before is wrongly taken for one and the field is not
    indented (`PlainHeader.RecognisedExactly`); `PlainHeader.TwelveBlanksMissed` is a manifest that is forwarded as it came;
  - a response that is recognised and complete is framed as its fields plainly promise, if and only if no field misleads
    (`PlainHeader.FieldReadExactly`); `PlainHeader.MisspeltMisleads` is framed although it has no Content-Length.
- The manifest is split one byte into the line after Content-Type (src/handle.c:344). `PlainHeader.FramedExactly`: the
  rewritten message is framed if and only if a Content-Length comes before Content-Type and Content-Type is the last header
  field; `Framing.LateFieldBreaksFraming` has one more field.
- The buffer for the rewritten message has the size of the message received (src/handle.c:146). `MessageSize.FitsExactly`: it
  suffices if and only if the lines taken for a Content-Length, each of which gets the new number, grow by no more than the
  filter drops. That holds when Content-Type is last and each of them is right (`MessageSize.FitsWhenTypeLast`);
  `MessageSize.LongFieldOverflows` has a field of a thousand bytes after Content-Type, and
  `MessageSize.SecondLengthOverflows` a second Content-Length without a number.
- The value of Content-Length is read from column 16 on (src/handle.c:227). `HttpText.LengthReadExactly`: it is the number in
  the field if and only if white space follows the colon, or the number is 0; `HttpText.FirstDigitSkipped` reads 23 for 123.
- The rewritten request is sent with the old length (src/handle.c:101). `Rewrite.ForwardedIntactExactly`: it arrives
  intact if and only if the new digits are as long as the text they replace; `Rewrite.LongerRateIsCut` loses a byte, and
  `Rewrite.ShorterRateIsPadded` sends a NUL.
- The name recorded for a chunk ends before the first `HTTP/1.1` of the request: it is the URI if and only if the URI does not
  contain that text (`Tracker.UriExactly`).
- Below a throughput of 15 the ladder falls back to 100 and not to its lowest rung, 10 (src/bitrate.c:85-97):
  `Bitrate.RateFitsExactly` and `Bitrate.RateMonotoneExactly`.
- A tracker never unlinks its only chunk (src/bitrate.c:148-155), so the log lags by one chunk from the second on:
  `Sessions.ResponseLogsOldest` and `Sessions.AlternationLags`.
- `transfer_dns_name` has the literal 15 for "last index" and ignores a last label of one byte (src/mydns.c:184-190):
  `Wire.TransferDnsName` and `Wire.TransferLabels` give both conditions as an if and only if, for any literal;
  `Wire.LonelyLabelLost` is a name of the right length that fails.

## Model

| member | source | states |
|---|---|---|
| `Text.AtoiItoa` | lsa/genlsa.py:33 | a printed sequence number, read back with `atoi`, is the same number, whatever non-digit follows |
| `Text.FieldsWord` | src/dijkstra.c:43 | a token followed by white space (or a comma, for `strtok`) is read whole and the reader continues right behind it |
| `Text.FieldsJoin` | lsa/genlsa.py:33 | splitting at commas undoes joining with commas, for non-empty words without commas |
| `Topology.ReadLinks` | lsa/genlsa.py:11-27 | fails exactly on a line with fewer than two names; otherwise the dictionary has the named nodes as keys and, for each, the other ends of its links in file order |
| `Topology.AddLink` | lsa/genlsa.py:18-25 | one line adds each end to the other's list, and changes no other entry; a self-loop is listed twice |
| `Topology.MentionsSymmetric` | lsa/genlsa.py:23-25 | links are undirected with multiplicity: b is listed under a as often as a under b |
| `Topology.TopologyWellFormed` | lsa/genlsa.py:11-27 | every topology read is closed, symmetric, and gives no node an empty neighbour list |
| `Bfs.Enqueue` | lsa/genlsa.py:48-50 | appends to the queue exactly the neighbours neither visited nor waiting, once each; their order is in `Bfs.RoundInFamilyOrder` |
| `Bfs.OrderPop` | lsa/genlsa.py:42-50 | popping the head of the queue advances by one position in the order the whole loop will produce |
| `Bfs.OrderShape` | lsa/genlsa.py:41-50 | a round is the initial queue as it stands followed by new nodes, once each |
| `Bfs.OrderSorted` | lsa/genlsa.py:41-50 | from a layered queue (k nodes at level d, the rest at d + 1) nodes come out in order of hop distance |
| `Bfs.RoundCoversReachable` | lsa/genlsa.py:39-54 | a round announces exactly the nodes reachable from the sink; the sink itself only through its own list |
| `Bfs.RoundAnnouncesOnce` | lsa/genlsa.py:40-50 | each node announces once and the sink never, if and only if the sink's own list has no duplicates and not the sink |
| `Bfs.RoundInHopOrder` | lsa/genlsa.py:36-50 | a round is in non-decreasing hop distance from the sink if and only if no other node precedes the sink in its own list |
| `Bfs.RoundInFamilyOrder` | lsa/genlsa.py:41-50 | behind the sink's own list, of two nodes the one whose earliest announced neighbour is announced first comes first, and of two with the same earliest neighbour the one that stands first in its list; that neighbour is always announced earlier |
| `Bfs.DoubleLinkRepeats` | lsa/genlsa.py:41 | a link listed twice, whose other end announces itself twice |
| `Bfs.SelfLinkOutOfOrder` | lsa/genlsa.py:41 | a link of the sink to itself after another link: the round is not in hop order |
| `Generator.EnqueueNeighbors` | lsa/genlsa.py:48-50 | the inner loop leaves the queue from which `Bfs.RoundInFamilyOrder` follows: the old one, then the new neighbours in list order |
| `Generator.GenerateLsas` | lsa/genlsa.py:39-54 | one round terminates and prints the surviving announcements in order; it fails exactly when the sink is unknown |
| `Generator.Generate` | lsa/genlsa.py:57-61 | the output is that of rounds 0, 1, ... on the described topology; it fails exactly on a short line, or an unknown sink in some round |
| `Generator.AllLsasContents` | lsa/genlsa.py:39-61 | what survives is, for every node heard in a round, its exact neighbour list under that round's number, and nothing else |
| `Generator.RoundKeepsOrder` | lsa/genlsa.py:42-54 | losses do not reorder a round: an announcement that is heard is printed behind exactly as many as are heard before it |
| `Generator.AllLsasSorted` | lsa/genlsa.py:57-61 | sequence numbers never decrease over the whole output |
| `Database.LineTokens` | src/dijkstra.c:43-75 | a printed announcement is read as its three tokens, whatever follows it |
| `Database.PrintTokens` | src/dijkstra.c:43-100 | the whole output is read as the concatenation of these triples |
| `Database.LastOfLargest` | src/dijkstra.c:64-106 | when no sender's numbers decrease, its last announcement carries its largest number |
| `Database.LoadIsNewestWins` | src/dijkstra.c:43-107 | the reader stays on record boundaries if and only if no sender's numbers decrease; then names are distinct, every entry is its sender's last announcement, and the list is in reverse order of first appearance |
| `Database.StaleRecordDerails` | src/dijkstra.c:64-67 | two records, the second stale: the neighbour token `b` becomes a sender with number 0 and no neighbours |
| `GraphList.Graph.Search` | src/dijkstra.c:50-56 | returns the first entry with the name, or null when there is none |
| `GraphList.Graph.Record` | src/dijkstra.c:68-106 | overwrites the sender's entry in place, or puts a new node in front; the rest of the list is unchanged |
| `GraphList.Graph.ReadRecord` | src/dijkstra.c:43-107 | one iteration consumes two tokens of a stale record and changes nothing, or three tokens of any other and stores it |
| `GraphList.Graph.Init` | src/dijkstra.c:32-109 | -1 and an empty list when the file is missing, and otherwise 0 and the database of the file's tokens, for every text |
| `GraphList.Graph.NodeAt` | src/dijkstra.c:115-117 | the scan by index finds the node at that position |
| `GraphList.Graph.ExistRoute` | src/dijkstra.c:111-131 | 1 when the second node is listed by the first, and 9 otherwise and on the diagonal |
| `GraphList.Graph.AssignIndices` | src/dijkstra.c:149-154 | numbers the nodes in list order and changes nothing else |
| `GraphList.Graph.BuildMatrix` | src/dijkstra.c:155-165 | the matrix holds the weight of every pair of entries |
| `GraphList.Graph.ChooseServer` | src/dijkstra.c:190-208 | returns null exactly in the absence of a matching node below 9, and otherwise the nearest, ties going to the lowest index and then to the earliest server |
| `GraphList.Graph.QueryDns` | src/dijkstra.c:132-209 | the pick for the distances from node 0, whatever the client's name; the database is not changed |
| `ShortestPaths.MinDistance` | src/dijkstra.c:213-223 | defined whenever an unsettled node is within 9; the last among the nearest unsettled nodes |
| `ShortestPaths.RelaxEdge` | src/dijkstra.c:240-242 | the guarded update changes at most the one distance, to the cheaper sum |
| `ShortestPaths.RelaxRow` | src/dijkstra.c:239-243 | after settling a farthest node, using its edges keeps every distance attained and all edges of settled nodes relaxed |
| `ShortestPaths.SettleNearest` | src/dijkstra.c:237-243 | one iteration always finds a node, settles exactly one more, and keeps the invariant |
| `ShortestPaths.Dijkstra` | src/dijkstra.c:225-247 | for every matrix of non-negative weights and every source, each distance is the smaller of 9 and the cost of the lightest route |
| `ShortestPaths.AllRelaxed` | src/dijkstra.c:236-244 | settling all nodes but one suffices: the edges of the last one improve nothing |
| `ShortestPaths.LightestCostUnique` | src/dijkstra.c:225-247 | that determines the returned array |
| `Selection.CheapRouteIsWalk` | src/dijkstra.c:111-131 | a route of cost below 9 uses advertised links only, one unit each |
| `Selection.WalkIsCheapRoute` | src/dijkstra.c:111-131 | every walk over advertised links is a route that costs no more than its hops |
| `Selection.MatrixDistanceIsHops` | src/dijkstra.c:160-167 | writing "no edge" as 9 is sound: a number is the cut-off cost over the matrix if and only if it is the cut-off hop distance in the advertised graph |
| `Selection.PickOwnNearestExactly` | src/dijkstra.c:198 | the pick sits nearest to the source, for every source and every list of servers that sit at nodes, if and only if no node name is a prefix of another |
| `Selection.WrongWhenPrefix` | src/dijkstra.c:198 | for every node name that is a prefix of another, a list of two servers on which the pick is the farther one |
| `Selection.PrefixMisleads` | src/dijkstra.c:198 | 10.0.0.1 and 10.0.0.10: the request of the former is sent to the latter |
| `Selection.PickIsNearest` | src/dijkstra.c:190-208 | among prefix-free names, for any source, no server sits nearer to it than the one picked |
| `Selection.AnswerRightExactlyForNodeZero` | src/dijkstra.c:167 | among prefix-free names the answer sits nearest to client c, for every list of servers that sit at nodes, if and only if c is node 0 |
| `Selection.WrongForOthers` | src/dijkstra.c:167 | for every other client, a list of servers for which the answer is not the nearest |
| `EndToEnd.LossIndependentDatabase` | src/dijkstra.c:43-107 | for every topology, number of rounds and loss pattern: exactly one entry per node heard at least once, with its exact neighbours and the last round in which it was heard |
| `EndToEnd.AdvertsAreRestriction` | src/dijkstra.c:43-131 | for every loss pattern the database advertises the topology restricted to the nodes heard, no more and no less |
| `EndToEnd.DistancesUnderLoss` | src/dijkstra.c:160-167 | for every loss pattern the computed distances are the cut-off hop distances of that restriction |
| `EndToEnd.HeardIsComplete` | lsa/genlsa.py:39-61 | when every reachable node but perhaps the sink is heard, nothing else is missing; the sink is heard only if it is linked to itself |
| `EndToEnd.AdvertsAvoidSink` | src/dijkstra.c:111-131 | what such nodes announce has exactly the walks of the topology, without the sink unless it is heard |
| `EndToEnd.ComputedDistance` | src/dijkstra.c:160-167 | the computed distances are then the cut-off hop distances of the topology, without the sink unless it is heard |
| `EndToEnd.Reroute` | lsa/genlsa.py:40-41 | a walk through a bypassed sink is rerouted around it without becoming longer |
| `EndToEnd.SinkIsDispensable` | lsa/genlsa.py:40-41 | leaving the sink out changes no distance if and only if every two of its neighbours are within two hops of each other without it |
| `EndToEnd.LeafIsBypassed` | lsa/genlsa.py:40-41 | a sink with a single neighbour satisfies that condition |
| `EndToEnd.DistancesAreHops` | src/dijkstra.c:225-247 | end to end, from the lines of the link file: when every other reachable node is heard, all computed distances are the hop distances of the links, cut off at 9, if and only if the sink is heard too or is bypassed |
| `EndToEnd.EightHopsToldApart` | src/dijkstra.c:4 | such distances in numbers: d up to 8 is computed exactly for nodes d hops apart, and 9 exactly for nodes with no walk of eight hops or fewer |
| `EndToEnd.SinkOnTheWay` | lsa/genlsa.py:40-41 | the path a - s - b with nothing lost: two hops in the links, 9 as computed |
| `EndToEnd.ExampleFiles` | lsa/genlsa.py:11-27 | this path and the two topologies above are what link files of two lines describe |
| `EndToEnd.OriginIsFarthest` | src/dijkstra.c:167 | without losses the entry at index 0, the source used, is in the round (its last node, if no node announces twice), and no reachable node is farther from the sink; unless the sink announces itself last |
| `EndToEnd.PickByHops` | src/dijkstra.c:190-208 | for every loss pattern: when no name of a node heard is a proper prefix of a server's address, the server picked sits nearest, in hops over what was announced, to the node at index 0; none is picked only if none sits within 9 |
| `EndToEnd.PrefixFreeServers` | src/dijkstra.c:198 | servers that sit at nodes with prefix-free names meet that condition |
| `EndToEnd.Resolve` | src/nameserver.c:181-191 | loading the generator's text after any losses and resolving a request gives such a server |
| `EndToEnd.ServeFromTopology` | src/nameserver.c:181-191 | the generator and the name server in sequence, everyone heard and the sink heard or bypassed: the answer sits nearest by hops in the links of the file |
| `HttpText.ReadLine` | src/handle.c:191-200 | returns the first line, its line feed included, and the pointer behind it |
| `HttpText.StartsWith` | src/handle.c:202-214 | the two loops accept a line when its leading blanks and what follows match the pattern shortened by as many characters |
| `HttpText.StartWithMeans` | src/handle.c:202-214 | that is: the number of blanks and the characters in common with the pattern add up to its length |
| `HttpText.StartWithRightExactly` | src/handle.c:202-214 | a line that starts with the pattern after its blanks is never missed, and the test is right about a line if and only if its blanks do not decide |
| `HttpText.IndentHarmlessExactly` | src/handle.c:206-212 | an indentation leaves the test right for every text behind it if and only if it is empty |
| `HttpText.StartWithPlain` | src/handle.c:202-214 | without leading blanks it is the prefix test |
| `HttpText.ScanHeader` | src/handle.c:127-143 | stops at the first byte that reaches the last state, or reports that no prefix does |
| `HttpText.ScannerNeverLate` | src/handle.c:127-143 | no CRLFCRLF of any stream is read past |
| `HttpText.ScannerExactWhenPaired` | src/handle.c:127-143 | on every stream whose CRs and LFs come in pairs, it stops at a byte if and only if the first CRLFCRLF (section 2.1 of RFC 9112) ends there |
| `HttpText.ScannerStopsAtFirstMatch` | src/handle.c:127-143 | on every stream, where the loop stops: at the end of the first CR, later LFs and at once a CR, and later LF, with no other LF between |
| `HttpText.ScannerExactly` | src/handle.c:127-143 | the loop finds the end of a header if and only if no such pattern ends before it |
| `HttpText.ScannerExactWhen` | src/handle.c:127-143 | on no stream does it stop behind the first CRLFCRLF |
| `HttpText.ScannerCanBeEarly` | src/handle.c:127-143 | a stream with a stray CR on which it stops before the header ends |
| `HttpText.GetContentLength` | src/handle.c:216-237 | the number on the first line that `start_with` accepts for `Content-Length:`, from column 16 to the CR |
| `HttpText.LengthReadExactly` | src/handle.c:227-231 | for a name of fifteen characters, white space and a number: the number is read if and only if there is white space, or it is 0 |
| `HttpText.FirstDigitSkipped` | src/handle.c:227-231 | `Content-Length:123` is read as 23 |
| `HttpText.LinesFlatten` | src/handle.c:222-223 | reading a text line by line gives back the lines it was composed of |
| `HttpText.FlattenLines` | src/handle.c:334-335 | the lines of any text, put together, are the text |
| `Manifest.StoreRate` | src/handle.c:269-274 | writes the first slot that holds -1, and nothing when there is none |
| `Manifest.FilterLine` | src/handle.c:256-297 | what one line appends to the buffer, does to the no-write flag and records; what the number recorded is, is in `PlainReading.RateQuoted` |
| `Manifest.FilterManifest` | src/handle.c:255-298 | the buffer ends up with the kept text, and the slots with the rates read, in order: those that the manifest quotes, by `PlainReading.SlotsOfManifest` |
| `Manifest.WriteHead` | src/handle.c:303-321 | the header lines through Content-Type, with the announced length replaced |
| `Manifest.FinishMessage` | src/handle.c:322-326 | the LF written after the CR is overwritten by the kept text; the size returned counts it once |
| `Manifest.WriteF4m` | src/handle.c:238-327 | the message left in the new buffer, its size, and the recorded slots |
| `Manifest.FindType` | src/handle.c:334-336 | finds the first line that `start_with` accepts for `Content-Type`, with the text through it and after it |
| `Manifest.ParseF4m` | src/handle.c:329-355 | -2 exactly for a video chunk, a size exactly for a manifest, which is then rewritten, and -1 otherwise; which responses these are is in `PlainHeader.Classify` |
| `Framing.KeptAsRead` | src/handle.c:255-298 | for every manifest: the kept text is the lines through the first one taken for `</media>`, without those taken for bitrate lines, then `</manifest>` |
| `PlainReading.KindReadExactly` | src/handle.c:256-284 | a line is taken for what it is if and only if its blanks decide none of the tests it is put to; without blanks they never do |
| `PlainReading.KindsInText` | src/handle.c:256-284 | a line plainly is a bitrate line, a media end or an end tag if and only if `bitrate`, `</media>` or `</manifest>` follows its leading blanks |
| `PlainReading.FilterKeeps` | src/handle.c:255-298 | when that holds of the lines through the end tag: the kept text is the lines through the first `</media>` line but no bitrate lines, then `</manifest>`, and the rates are those of the bitrate lines |
| `PlainReading.RateQuoted` | src/handle.c:259-267 | the rate read from a line is the number behind its first quote, for every number and whatever stands in front of the quote and, but for digits, behind the number |
| `PlainReading.SlotsOfManifest` | src/handle.c:263-274 | ten free slots, after a clear manifest whose bitrate lines quote some rates, hold these rates in manifest order as far as there is room, and -1 behind them |
| `PlainReading.LineReadExactly` | src/handle.c:255-298 | the condition is exact: a line in front of every otherwise clear manifest leaves the filter right if and only if it is clear |
| `PlainReading.SevenBlanksMisread` | src/handle.c:256-284 | a media line behind seven blanks is dropped and its rate read as 0; an end tag behind seven blanks is missed |
| `Framing.FilterIdempotent` | src/handle.c:255-298 | filtering a filtered manifest changes nothing |
| `Framing.RatesFillInOrder` | src/handle.c:267-274 | the slots stay a filled prefix followed by -1s: the new rates fill the free slots in manifest order until none is left |
| `Framing.LengthFound` | src/handle.c:216-237 | the reader gets back the number that the writer printed, anywhere past the header lines |
| `Framing.StopsAtFirstLf` | src/handle.c:127-143 | in a rewritten message the scanner stops at the first LF of the kept text, and nowhere if there is none |
| `Framing.FramedWhenLfFirst` | src/handle.c:306-326 | header lines, an announced length of one less than the kept text, a CR and the kept text are framed if and only if the kept text begins with LF |
| `Framing.NewHeadAt` | src/handle.c:303-321 | line by line: the new header ends at the first Content-Type line; a line taken for a Content-Length becomes the one with the new number, and every other line stays |
| `Framing.NotFramedWithoutLength` | src/handle.c:303-321 | header lines that stop at Content-Type without a Content-Length announce nothing, whatever follows |
| `Framing.SplitOfMessage` | src/handle.c:334-344 | the offset `total + 1` splits a message one byte into the line after Content-Type |
| `Framing.PartsOfMessage` | src/handle.c:244-248 | the two parts are the whole message |
| `Framing.FramedExactlyWhenTypeLast` | src/handle.c:238-327 | in terms of the fields that `start_with` accepts: the rewritten message is framed for the proxy's own scanner and length reader if and only if a Content-Length comes before Content-Type and Content-Type is the last field |
| `PlainHeader.RecognisedIsPlain` | src/handle.c:334-345 | the field by which a response is recognised is always its plain Content-Type |
| `PlainHeader.RecognisedExactly` | src/handle.c:334-345 | a response of some media type is recognised if and only if no field before its Content-Type is wrongly taken for one and that field is not indented |
| `PlainHeader.TwelveBlanksMissed` | src/handle.c:334-345 | a response that is plainly text/xml, with a field of twelve blanks and a letter, is recognised neither as a manifest nor as a video |
| `PlainHeader.TwelveBlanksForwarded` | src/handle.c:349 | for it -1 is returned |
| `PlainHeader.MediaOfField` | src/handle.c:338 | from `Content-Type: ` and any word, the word is read |
| `PlainHeader.MediaDecides` | src/handle.c:336-351 | for every message of clean fields whose first Content-Type gives a media type: it is a video chunk if and only if this is video/f4f, and a manifest if and only if it is text/xml |
| `PlainHeader.Classify` | src/handle.c:329-355 | for such a message -2 is returned if and only if the media type is video/f4f, the size of the new message if and only if it is text/xml, and -1 otherwise |
| `PlainHeader.RewriteReceived` | src/handle.c:329-346 | for a complete response that is recognised and fits, the buffer holds the message judged below |
| `PlainHeader.RecordReceived` | src/handle.c:263-274 | and when the manifest is clear, ten free slots take the rates that it quotes |
| `PlainHeader.FramedExactly` | src/handle.c:238-327 | for such a response: when the fields before Content-Type are clear, the message is framed if and only if a Content-Length comes before Content-Type and Content-Type is the last field |
| `PlainHeader.HeaderReadExactly` | src/handle.c:303-321 | without that condition: the plain order decides unless Content-Type is last and only something that is no Content-Length is taken for one before it |
| `PlainHeader.FieldReadExactly` | src/handle.c:222-231 | which fields are harmless: the plain order decides for every such response with the field and otherwise clear ones if and only if not: it is taken for `Content-Length:` but is none, is not taken for Content-Type, and twelve or more is read from it |
| `PlainHeader.MisspeltMisleads` | src/handle.c:222-231 | a misspelt name behind two blanks that is read as a Content-Length of 12, and a framed message without a Content-Length |
| `Framing.LateFieldBreaksFraming` | src/handle.c:344 | a header with one field after Content-Type, and its rewritten message, which is not framed |
| `Framing.BodyIsFilteredManifest` | src/handle.c:238-327 | when it is framed, the scanner stops right before the filtered manifest and Content-Length is its size (section 6.2 of RFC 9112) |
| `MessageSize.OutputSize` | src/handle.c:303-326 | for every header: the rewritten message is longer than the one received by what the lines taken for a Content-Length grow, less the bytes the filter drops |
| `MessageSize.FitsExactly` | src/handle.c:146 | for every header: it fits the buffer if and only if the first does not exceed the second |
| `MessageSize.FitsWhenTypeLast` | src/handle.c:146 | with Content-Type as the last field it fits whenever every line taken for a Content-Length is read as the length of the body |
| `MessageSize.LongFieldOverflows` | src/handle.c:146 | a field of a thousand bytes after Content-Type, and the message does not fit |
| `MessageSize.SecondLengthOverflows` | src/handle.c:146 | a second Content-Length without a number, and the message is three bytes too long, Content-Type being last |
| `Bitrate.AfterClosedForm` | src/bitrate.c:19 | after n samples: (1-a)^n of the start plus a(1-a)^(n-k) of each k-th sample |
| `Bitrate.AfterInHull` | src/bitrate.c:19 | for a in [0,1] the average stays between the least and the largest of start and samples |
| `Bitrate.AfterForgetsStart` | src/bitrate.c:19 | two runs over the same samples differ by exactly (1-a)^n times their initial gap |
| `Bitrate.ChooseRate` | src/bitrate.c:85-97 | the largest of 10, 100, 500 and 1000 that fits one and a half times, when one fits; 100 for every throughput below 15 |
| `Bitrate.RateFitsExactly` | src/bitrate.c:85-97 | the chosen rate fits if and only if the throughput is at least 15 |
| `Bitrate.RateMonotoneExactly` | src/bitrate.c:85-97 | more throughput never lowers the rate, except from below 15 to between 15 and 150 |
| `Bitrate.PowBound` | src/bitrate.c:19 | (1-a)^n (1+na) is at most 1 |
| `Bitrate.RateConverges` | src/bitrate.c:85-97 | an explicit number of samples, all above one and a half times a rung, brings every rate to that rung or above |
| `Rewrite.RewriteRequest` | src/bitrate.c:106-123 | the text between the nearest '/' before the first `Seg` and that `Seg` is replaced by the rate, and the rate is read back from there |
| `Rewrite.SegmentIsReplaced` | src/bitrate.c:106-123 | as texts: `front/segmentSegrest` becomes `front/rateSegrest`, for every segment without a '/' and no earlier `Seg` |
| `Rewrite.RateReadsBack` | src/bitrate.c:117-123 | between the '/' and `Seg` of every rewritten request stand digits only, and they are the rate |
| `Rewrite.RewrittenLandmarks` | src/bitrate.c:106-123 | after rewriting, the first `Seg` and its '/' are where the old ones were, shifted by the new digits only |
| `Rewrite.LastRewriteWins` | src/bitrate.c:106-123 | rewriting with one rate and then another equals rewriting with the other alone |
| `Rewrite.ForwardedIntactExactly` | src/handle.c:100-101 | prefix, suffix and length of the rewritten request; it is forwarded intact if and only if the lengths agree |
| `Rewrite.LongerRateIsCut` | src/handle.c:100-101 | a request at 500 rewritten to 1000 is sent without its last byte |
| `Rewrite.ShorterRateIsPadded` | src/handle.c:100-101 | a request at 500 rewritten to 10 is sent with a NUL behind it |
| `Sessions.QueueIsRest` | src/bitrate.c:142-155 | in every run the unlinked chunks are a prefix of the order of creation and the queue is the rest; it never becomes empty again |
| `Sessions.ResponseLogsOldest` | src/bitrate.c:148-158 | each response logs the oldest chunk not yet unlinked; this is the newest one if and only if no other is linked |
| `Sessions.AlternationLags` | src/bitrate.c:148-158 | under strict alternation the k-th response logs chunk k-1, for k at least 2, and the first logs chunk 1 |
| `Sessions.ThroughputIsAverage` | src/bitrate.c:151 | a session's throughput is the average over its own samples, from 100 |
| `Sessions.RequestedRate` | src/bitrate.c:99-100 | the rate kept for a request is the one for the average, from 100, of the session's samples before it |
| `Sessions.SessionConverges` | src/bitrate.c:82-97 | after enough fast responses the next request is made at the rung or above |
| `Sessions.SessionsIndependent` | src/bitrate.c:64-80 | in every run over all clients: one tracker per descriptor that asked for a chunk, none shared, each in the state its own steps lead to |
| `Sessions.NextRateIsOwn` | src/bitrate.c:82-97 | in every run over all clients, the rate of a client's next request is the one for the average, from 100, of its own samples |
| `Sessions.LogIndependent` | src/bitrate.c:157-158 | in every run over all clients, what is logged for one of them is what its own steps alone log |
| `Tracker.TrackerNode.Push` | src/bitrate.c:50-60 | a new chunk in front of the unchanged chain |
| `Tracker.TrackerNode.UpdateBitrate` | src/bitrate.c:82-140 | the rate for the throughput, the rewritten request, and the newest chunk renamed after it; older chunks unchanged |
| `Tracker.TrackerNode.AskChunk` | src/handle.c:86-91 | both together are one step of the value model on the tracker's chain |
| `Tracker.TrackerNode.UpdateThroughput` | src/bitrate.c:142-161 | logs the oldest chunk and unlinks it unless it is alone; the chain stays acyclic and non-empty |
| `Tracker.UriExactly` | src/bitrate.c:125-137 | the name recorded for the request of a URI is the URI, if and only if the URI does not itself contain `HTTP/1.1` |
| `Tracker.FragmentExactly` | src/bitrate.c:24 | a request is for a chunk if and only if `-Frag` occurs anywhere in its name |
| `Tracker.Trackers.SearchSeg` | src/bitrate.c:64-80 | the tracker of the descriptor, or null |
| `Tracker.Trackers.OnAsk` | src/bitrate.c:22-62 | the linked lists after a request are those of the value model, and the request sent carries the rate for its client's throughput; all other trackers are unchanged; non-chunks change nothing and are sent as they came |
| `Tracker.Trackers.OnAnswer` | src/bitrate.c:142-161 | the linked lists after a response are those of the value model, and the chunk logged is the oldest |
| `Tracker.Trackers.HandleAll` | src/handle.c:84-101 | over every run of requests and responses: the linked lists end, and log, as the run of the value model does, and the rate read from each chunk request sent is the one for the average, from 100, of the samples measured for its client until then |
| `Wire.TransferDnsName` | src/mydns.c:174-204 | with `last` for the literal 15: the buffer begins with the label form if and only if `last` is the last index and the last label has two bytes or more; a shorter name loses its last label |
| `Wire.WireBytesEncode` | src/mydns.c:174-204 | those bytes are the label form of section 3.1 of RFC 1035 |
| `Wire.DecodeEncode` | src/mydns.c:174-204 | decoding the label form gives the labels back |
| `Wire.TransferLabels` | src/mydns.c:174-204 | from labels to buffer: the label form comes out exactly under that condition, and then a reader of section 3.1 of RFC 1035 gets the labels back |
| `Wire.ServedNameEncoded` | src/mydns.c:5-8 | the constant `valid_dns` is the label form of video.cs.cmu.edu |
| `Wire.ServedNameDecoded` | src/nameserver.c:157 | exactly the texts that begin with that constant decode to the labels of the served name |
| `Wire.ServedText` | src/mydns.c:5-8 | these labels, dotted, are the text video.cs.cmu.edu |
| `Wire.TransferServedName` | src/mydns.c:174-204 | for the served name the literals 15 and 18 fit, and the buffer becomes that constant |
| `Wire.LonelyLabelLost` | src/mydns.c:184-190 | a name of sixteen bytes whose last label is one byte, for which the label form does not come out |
| `Wire.GenRespPkt` | src/mydns.c:219-270 | the 66 bytes of the packet, field by field |
| `Wire.ResponseRoundTrip` | src/mydns.c:219-279 | a reader that follows section 4.1 of RFC 1035, and wants a response without an error code, finds the address as the first answer, and so do the proxy's last four bytes |
| `Wire.ResponseFields` | src/mydns.c:224-237 | the rest of the packet: id 0, an authoritative response without error, one question and one answer for the served name, a time to live of 0, no further records |
| `Wire.TranslateIp` | src/nameserver.c:130-145 | the numbers between the dots become bytes; bytes without a number stay, and a fifth number is ignored |
| `Wire.QuadFields` | src/nameserver.c:130-145 | every dotted quad, with or without its newline, is read as its four numbers |
| `Wire.AddressRoundTrip` | src/mydns.c:272-279 | every dotted quad shorter than the field arrives unchanged at the proxy |
| `Servers.AppendNode` | src/nameserver.c:115-124 | the list is the old list followed by the node |
| `Servers.GetServers` | src/nameserver.c:100-128 | one node per line, in file order, with the bytes of its address |
| `RoundRobin.AcceptsExactly` | src/nameserver.c:152-160 | a packet is answered if and only if what stands behind its twelve header bytes decodes to the served name |
| `RoundRobin.BuildRequest` | src/mydns.c:131-168 | twelve bytes, what `transfer_dns_name` leaves for the served name, and any tail: such a packet is answered |
| `RoundRobin.NameServer.HandleRequest` | src/nameserver.c:147-180 | an answer if and only if the header is complete and followed by the label form of the served name, and otherwise an error packet with the pointer unchanged; with an answer the pointer moves on and its server is the one answered |
| `RoundRobin.NameServer.HandleAll` | src/nameserver.c:147-180 | over every run of packets on the linked list, the m-th answer is the address of server m modulo the number of servers |
| `RoundRobin.ServedInTurn` | src/nameserver.c:153-175 | over every run of packets the m-th accepted one is answered with server m modulo n; rejected ones count for nothing |
| `RoundRobin.RoundRobinFair` | src/nameserver.c:165-175 | any n consecutive answers use each server once, and no server is ever ahead of another by more than one |
| `NameService.AnswerInTurn` | src/nameserver.c:100-180 | from the servers file: the m-th accepted request gets a packet from which a reader of section 4.1 of RFC 1035 takes the address on line m modulo the number of lines |
| `NameService.AnswerNearest` | src/nameserver.c:147-191 | from the servers file and the generator's text: an accepted request gets the address of a server that sits nearest to the node at index 0, if one is within 9 |
| `NameService.AnswerFromTopology` | src/nameserver.c:147-191 | from the link file and the servers file to the packet: everyone heard, and the sink heard or bypassed, the address is that of a server nearest by hops in the links |

## Left out

- Sockets, `select`, descriptors, `connect`, `read`, `write` and the main loops: only what the handlers compute is modelled.
- Reading a file into lines or characters: methods take the text, or the names on each line of the link file (Python's `strip` and `split` are not modelled), as a parameter.
- The clock and `est_tp`'s measured duration: the throughput sample is a parameter, any real number.
- Randomness in `lsa/genlsa.py`: whether an announcement survives is an arbitrary function of the round and the position in it.
- Floating point: throughput is a `real`, so rounding in the average and in `rate_get[i] * 1.5` is not modelled.
- Integer width: `int` and `atoi` are unbounded; overflow of sequence numbers, lengths and rates is not modelled.
- Fixed buffer sizes: 50-byte names, 50 neighbours, 200-byte tokens, 8192-byte lines and headers, 48-byte chunk names and the ten bytes that `write_f4m_nolist` copies the number on a bitrate line to (everything after the first quote of the line) are taken to be large enough; where a size matters to the result (the 256000-byte manifest buffer, the message buffer, ten slots, 15 bytes of address, 18 bytes of name, 66 bytes of packet) it is a precondition.
- Memory: `malloc` always succeeds, `free` and leaks are not modelled, and pointer arithmetic on a text buffer is the remaining text.
- Loops that leave their buffer: a manifest without `</manifest>`, a header without Content-Type or Content-Length, a request without "/" before "Seg" are excluded by preconditions (`HasEnd`, `HasType`, `HasLength`, `Rewritable`), because the C code has no defined behaviour on them.
- GraphList.Graph.QueryDns: a null answer stands for the NULL dereference at src/dijkstra.c:207, and the unused lookup of the client at src/dijkstra.c:137-148 is dropped.
- Tracker.Trackers.OnAnswer: a response for a client without a tracker, a NULL dereference in C, is excluded by the precondition.
- Wire.TransferDnsName: names whose dots past the literal make C write behind its buffer are excluded (`StaysInside` says exactly which); empty labels and labels of more than 63 bytes are excluded as section 3.1 of RFC 1035 excludes them.
- Tracker.TrackerNode.UpdateBitrate: the request buffer is a string that is returned, not a buffer overwritten in place; what the old tail of the buffer does to the bytes sent is in `Rewrite.ForwardedIntactExactly`.
- Topology.ReadLinks: the dictionary of lists is a map of sequences that a local variable holds, since Python's dictionary is not shared.
- Generator.GenerateLsas: `visited` and `to_visit` are a set and a sequence in local variables, and `print` appends to a text.
- RoundRobin.NameServer.HandleRequest: an empty server list, a NULL dereference in C, is excluded.
- EndToEnd.Resolve: a query on an empty database, where C reads an array of size 0, is excluded.
- `parse_f4m_response`'s media type for a `Content-Type` line that its `sscanf` does not match is undefined in C; here it is no media type.
- `gen_error_pkt`, `init_mydns`, `init_addrinfo` and `resolve`: allocation and network only. Of `gen_dns_request` the name is modelled; its header and its type and class are any bytes (`RoundRobin.BuildRequest`).
- NameService.AnswerNearest: the list and the database are built for one request; in C they are built once.
- A manifest whose last line has no LF: `read_line` then reads past the message in C, and here the line ends with the text. The filtered manifest itself is such a text (`Framing.FilterIdempotent`).
- PlainHeader.RewriteReceived: a response is taken with the bytes that its header announces to the proxy, with a complete end-tag line, and within the two buffers (`Sendable`); on others the C code runs past what it has read.
- Manifest.ParseF4m: that the rewritten message fits its buffer is a precondition; `MessageSize.FitsExactly` says when it does.
- `src/log.c`, `printf` and the fields of a log line other than the chunk name.
- `netsim/`, `common/`, `topos/` and `plot/`: shell commands, configuration and plotting.
