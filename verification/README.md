# A range-partitioned key-value store, modelled and verified in Dafny

The repository is a small distributed store. A control node keeps an ordered directory of
`[min, max] -> node` entries, routes every command by a floor lookup in it, and after every write runs
`re_balance`, two passes that migrate boundary keys between neighbouring nodes through a log and commit
protocol. Each store node keeps an ordered database, a log database whose keys are encoded records, and a
byte counter it maintains itself; before a logged operation is committed it announces the smallest and
largest key it will hold afterwards.

The project models that system from the bytes on the wire up to the console, and proves these results
about it, for all inputs.

- A running cluster prints what one sequential map prints, over any list of commands
  (`Refinement.RunRefinesMap`); so do the classes over real messages, buffers and databases, as long as the
  bytes stored between the commands can be counted in an `int` (`ControlImpls.ControlImpl.Run`). A freshly
  seeded cluster of n nodes does so if and only if n is at most nine (`Seed.FreshClusterIsMapIff`, and
  `ControlImpls.FreshRun` for the classes): directory entries are ordered as strings, "10" sorts between "1"
  and "2", and with ten nodes two puts and a get are enough to lose a key.
- `re_balance` balances whenever that is possible at all: every node ends within the limit exactly when the
  sequence of entries can be cut into that many consecutive parts that all are
  (`BalanceLaws.BalancedIffPossible`). A second call changes nothing (`BalanceLaws.SettleIdempotent`). Where
  balance is impossible only the first node is over the limit, and by a bounded amount
  (`BalanceCost.FirstNodeBound`). The number of migrations is exactly a difference of potentials and so
  bounded (`BalanceCost.MovesBound`).
- "Within the limit" is an exact integer comparison (`Limits.ExactTest`), and in it: whatever was stored where,
  every command that writes leaves all nodes balanced, except for a first node that no cut could relieve
  (`Writes.WriteBalances`, over runs `Writes.RunBalances`, and in the contracts of `Run` and `FreshRun`).
- The steps of a migration come in the order that leaves no gap: between any two of them every stored key can be
  found at the node the directory then names (`Moments.NothingOutOfReach`), and the control node's methods issue
  exactly these steps (`ControlImpls.ControlImpl.MigrateOne`).
- The directory and the data stay in step through every put, delete and migration, although both directory
  edits of a migration go by a snapshot taken before the first (`ClusterLaws.MigrateExact`).
- Each store node's announced bounds are the bounds it has after the commit
  (`StoreSpec.PredictionIsOutcome`); what it stands for changes at LOG and not at COMMIT; its counter is the
  full scan exactly as long as no empty value is replaced or removed (`StoreSpec.CounterExactIff`).
- Everything that is written to a buffer is read back, and no command that fits the buffers can make a later
  message overrun them (`Wire.RequestRoundTrip`, `Wire.ReplyRoundTrip`, `Wire.AnswersFit`).

## How it is laid out

| file | what it holds |
|---|---|
| Bytes.dfy, Tables.dfy | byte strings in RocksDB's order; a database as entries in ascending key order, shown to be a finite map |
| HandleBuff.dfy, Records.dfy, Wire.dfy | the wire format, log and directory records, requests and replies |
| DbHandle.dfy | the database wrapper and its snapshot iterators |
| StoreSpec.dfy, StoreImpl.dfy | the store node as a state machine, and as the classes that implement it |
| WireLayout.dfy | every message, log record and directory entry byte by byte |
| Balance.dfy, BalanceLaws.dfy, BalanceCost.dfy, Limits.dfy | the passes of `re_balance` on bare data, what they achieve, what they cost, and the limit in integers |
| Cluster.dfy, ClusterLaws.dfy, Refinement.dfy | directory and data together, the invariant, the refinement to one map |
| Writes.dfy | what every command and every run leaves behind on the nodes |
| Moments.dfy | a migration step by step |
| Aborted.dfy | what an aborted migration does to the directory |
| Seed.dfy | the initial directory and the nine-node limit |
| DirectoryDb.dfy, ControlLaws.dfy, ControlImpl.dfy | the encoded directory, and the control node as a class that exchanges messages with store nodes |

The imperative parts of the program are classes and methods over buffers, databases and nodes; each method's
contract equates the new state with a function of the old one, and the laws are proved about those functions.

## Conventions

- A database is a sorted sequence of entries; `PutIsUpdate` and `DeleteIsRemoval` show that it is a
  finite map. An iterator is a position in the table as it was when the iterator was made
  (rocksdb_include/rocksdb/iterator.h:41-75); the order is rocksdb_include/rocksdb/slice.h:252-263.
- Integers are copied in little-endian two's complement, as on the machines the program is written for.
- `double` is `real` and `int` is unbounded, except in the wire format, where an integer has 32 bits. The
  control node's methods therefore ask that what is stored after each command of the list, overwritten and
  deleted entries not counted, stays below 2^31 bytes (`ControlLaws.RoomFor`).
- Words read from the console are not empty and hold no NUL byte. Messages must fit the buffers of MAXLINE
  bytes: `CommandFits` asks of a get that its request fits, and of a put or del that two keys of that length fit
  one LOG reply and that key and value fit one LOG request. `Wire.AnswersFit` shows that this is enough.
- A request and its reply are one atomic exchange of two whole messages.

## Where comments and code disagree

- my_code/control_node/control_impl.cpp:138 says that every node rolls back when one refuses. The data does
  (`StoreSpec.AbortIsHarmless`), but the code then edits the directory all the same, by whatever bounds the two
  replies carry. With the announced bounds the key becomes unreadable (`Aborted.AbortLosesKey`); if a reply may
  leave the smallest key out, the key is still read exactly under the condition of `Aborted.AbortReadIff`. No
  store node sends a reply that refuses, so the branch is not reached and nothing says what such a reply holds.
- my_code/store_node/store_log.h:66-67 says that the log is emptied. The code removes its first record, which
  undoes the last LOG exactly if that record sorts before all others (`StoreSpec.DelLogUndoesLog`); the control
  node never has two pending (`StoreSpec.OnePendingRecord`, `ControlImpls.ControlImpl.TracesDisciplined`).
- my_code/handle_buff/handle_buff.h:16-21 calls the length field the length of the string. The code counts the
  terminating NUL as well, and a string with a NUL inside comes back cut short (`HandleBuff.StrRoundTrip`).

## Model

| member | source | states |
|---|---|---|
| Bytes.NulSuccessor | my_code/db_handle/db_handle.cpp:102 | key plus a NUL byte is the immediate successor of key: a string lies below it exactly if it is at or below key |
| Bytes.Trichotomy | rocksdb_include/rocksdb/slice.h:252-263 | the byte-wise order is strict and total |
| Bytes.LessIsFirstDifference | rocksdb_include/rocksdb/slice.h:252-263 | one string lies below another exactly if, after a common start, it ends first or has the smaller unsigned byte |
| Tables.PutIsUpdate | my_code/db_handle/db_handle.cpp:16-18 | on a sorted table Put is the update of a finite map, whether the key is there or not |
| Tables.DeleteIsRemoval | my_code/db_handle/db_handle.cpp:50-52 | on a sorted table Delete is the removal of a key from a finite map, whether the key is there or not |
| Tables.FindExact | my_code/db_handle/db_handle.cpp:91-95 | Get finds a value exactly if the table holds that entry |
| Tables.FloorSplits | my_code/db_handle/db_handle.cpp:101-118 | the floor entry separates the keys at or below the target from those above; it is the first entry when all lie above |
| DbHandles.DbHandle.GetSmallerOrEqual | my_code/db_handle/db_handle.cpp:101-118 | seek past key and step back ends on the largest key at or below the target, or on the smallest key of all with result false; the equality branch is unreachable |
| DbHandles.DbHandle.GetSize | my_code/db_handle/db_handle.cpp:79-89 | the scan adds up both lengths plus one for every key and value |
| DbHandles.DbHandle.GetNum | my_code/db_handle/db_handle.cpp:62-72 | the scan counts the entries |
| DbHandles.DbHandle.StoreLessOrEqualOne | my_code/db_handle/db_handle.cpp:120-134 | the early-exit count is true exactly if there is at most one entry |
| HandleBuff.IntRoundTrip | my_code/handle_buff/handle_buff.cpp:28-39 | every 32-bit integer, negative ones included, is read back, whatever follows it |
| HandleBuff.StrRoundTrip | my_code/handle_buff/handle_buff.cpp:7-26 | a string is read back up to its first NUL and the reader ends where the writer did; the string comes back whole exactly if it has no NUL |
| HandleBuff.StrsRoundTrip | my_code/handle_buff/handle_buff.cpp:7-48 | a list of strings written back to back is read back whole, the reader ending where the writer did |
| HandleBuff.InsertStr | my_code/handle_buff/handle_buff.cpp:19-26 | writes exactly the encoding at the given offset and nothing else, advances and counts by its length |
| HandleBuff.InsertStrs | my_code/handle_buff/handle_buff.cpp:41-48 | the loop writes exactly the encodings of the list and total_size grows by exactly the bytes written |
| HandleBuff.GetString | my_code/handle_buff/handle_buff.cpp:7-17 | reads the string at the offset up to its first NUL and returns the offset behind its field |
| Records.LogRoundTrip | my_code/store_node/store_log.cpp:10-47 | either decoder gives back the record that was encoded, whatever stale bytes follow |
| Records.LogInjective | my_code/store_node/store_log.cpp:10-17 | different records encode to different database keys |
| Records.Log.ToSlice | my_code/store_node/store_log.cpp:10-17 | writes exactly the encoded record into the buffer and returns its length |
| Records.Log.FromBuff | my_code/store_node/store_log.cpp:40-47 | decodes the record at the offset |
| Records.MetaRoundTrip | my_code/control_node/control_meta.cpp:8-22 | a directory entry is read back as it was written |
| Records.MetaInjective | my_code/control_node/control_meta.cpp:15-22 | different directory entries encode differently |
| Records.Meta.ToSlice | my_code/control_node/control_meta.cpp:15-22 | writes exactly the encoded entry and returns its length |
| Wire.RequestRoundTrip | my_code/store_node/store_impl.cpp:127-192 | the dispatch on the command word understands every request as the one that was sent, over stale bytes of earlier messages, and no request overruns the buffer |
| Wire.ReplyRoundTrip | my_code/control_node/control_impl.cpp:31-77 | the control node reads every reply as the one that was given, and no reply overruns the buffer |
| Wire.AnswersFit | my_code/store_node/store_impl.cpp:127-192 | a node that holds fitting entries gives only fitting replies |
| WireLayout.RequestLayout | my_code/const_values/const_values.cpp:13-72 | the bytes of each of the eight requests: the literal command word, then the key of a GET or kind, key and value of a LOG, with all lengths and integers low byte first, and nothing behind them |
| WireLayout.ReplyLayout | my_code/store_node/store_impl.cpp:127-192 | the bytes of each reply, with the literal "ok" |
| WireLayout.LogLayout | my_code/store_node/store_log.cpp:10-17 | a record is kind (0 put, 1 delete), key, value |
| WireLayout.MetaLayout | my_code/control_node/control_meta.cpp:15-22 | a directory entry is smallest key, largest key, node number |
| WireLayout.RequestFillsBuffer | my_code/const_values/const_values.h:12 | a GET or LOG is within the bounds asked for exactly if its bytes fit the buffer |
| StoreSpec.CounterStep | my_code/store_node/store_data.cpp:24-42 | one put or delete keeps the counter equal to the full scan exactly if it does not replace or remove an empty value |
| StoreSpec.CounterExactIff | my_code/store_node/store_data.cpp:14-42 | after any sequence of puts, overwrites and deletes the counter is the full scan if and only if none of them replaced or removed an empty value |
| StoreSpec.CounterAgreesWithScan | my_code/store_node/store_data.cpp:14-42 | so over any sequence of puts, overwrites and deletes with non-empty values the counter is the full scan |
| StoreSpec.PredictionIsOutcome | my_code/store_node/store_impl.cpp:55-125 | the bounds announced for a PUT or DELETE of any key are the first and last key after the commit, both empty exactly if the node becomes empty |
| StoreSpec.LogThenCommit | my_code/store_node/store_impl.cpp:35-49 | LOG then COMMIT on an idle node performs exactly the logged operation and leaves the log empty |
| StoreSpec.LogShowsOperation | my_code/store_node/store_impl.cpp:55-125 | LOG changes the logical content by exactly the logged operation |
| StoreSpec.CommitKeepsLogical | my_code/store_node/store_impl.cpp:35-49 | COMMIT never changes the logical content while at most one record is pending |
| StoreSpec.DelLogUndoesLog | my_code/store_node/store_log.cpp:72-82 | DEL_LOG undoes the latest LOG exactly if its record sorts before every other pending one |
| StoreSpec.AbortIsHarmless | my_code/control_node/control_impl.cpp:139-147 | on one node, LOG, DEL_LOG and COMMIT leave data, counter and log as they were if and only if its log was empty before |
| StoreSpec.RollbackByRequests | my_code/store_node/store_impl.cpp:185-191 | the request DEL_LOG after a LOG gives the node back as it was exactly if the record sorts before all pending ones; LOG, DEL_LOG and COMMIT do exactly if the log was empty |
| StoreSpec.MovingKeyInOneNode | my_code/control_node/control_impl.cpp:98-199 | once both LOG steps are done the moving key is in the receiving logical node only, through both commits, and every other key where it was |
| StoreSpec.OnePendingRecord | my_code/store_node/store_log.cpp:49-82 | along every sequence that logs only while nothing is pending the log holds the record last written and nothing else, and get_log returns it; that the control node sends only such sequences is ControlImpl.TracesDisciplined |
| StoreImpls.StoreData.Put | my_code/store_node/store_data.cpp:33-42 | updates database and counter as the specification's put |
| StoreImpls.StoreData.Delete | my_code/store_node/store_data.cpp:24-31 | updates database and counter as the specification's delete |
| StoreImpls.StoreData.constructor | my_code/store_node/store_data.cpp:14-18 | the counter starts as the full scan |
| StoreImpls.StoreLog.WriteLog | my_code/store_node/store_log.cpp:49-52 | stores the encoded record as a key |
| StoreImpls.StoreLog.ClearLog | my_code/store_node/store_log.cpp:72-82 | removes the first record in byte order |
| StoreImpls.StoreImpl.CommitLog | my_code/store_node/store_impl.cpp:35-49 | applies the first record and removes it |
| StoreImpls.StoreImpl.Bounds | my_code/store_node/store_impl.cpp:55-125 | moving one iterator over the old data computes the announced bounds |
| StoreImpls.StoreImpl.Serve | my_code/store_node/store_impl.cpp:127-193 | one message in, the whole reply out, the node in the state the request leads to |
| Balance.LimitForm | my_code/control_node/control_impl.cpp:51-55 | the quotient test is a test of the size against one limit |
| Limits.ExactTest | my_code/control_node/control_impl.cpp:51-55 | for any number of nodes n the test, both tolerances included, holds exactly if the node has at most one entry or 100*n*size <= (100+n)*total + (100+n)/1000000 |
| Limits.ExactTestPlain | my_code/control_node/control_impl.cpp:51-55 | below 999900 nodes that is 100*n*size <= (100+n)*total |
| Balance.PartNotTooMuch | my_code/control_node/control_impl.cpp:51-55 | a part of a run of entries that is within the limit is within the limit |
| Balance.ShiftKeepsSequence | my_code/control_node/control_impl.cpp:96-309 | a migration leaves the concatenation of the nodes' data, in node order, as it was |
| Balance.ShiftConserves | my_code/control_node/control_impl.cpp:90-97 | a migration takes from one size exactly what it adds to the other; the total computed once stays the sum of the sizes |
| Balance.DrainShape | my_code/control_node/control_impl.cpp:97-200 | an inner loop hands over one block, stops as soon as the node is within the limit, one entry fewer would not have done, and the node is never emptied |
| BalanceLaws.SettleKeepsSequence | my_code/control_node/control_impl.cpp:90-312 | both passes together only move cut points |
| BalanceLaws.ForwardFine | my_code/control_node/control_impl.cpp:96-201 | after the forward pass every node but the last is within the limit |
| BalanceLaws.BackwardCascade | my_code/control_node/control_impl.cpp:202-309 | if the backward pass, having come to some node after the forward pass, finds it within the limit, then all lower nodes are too and the rest of the pass changes nothing |
| BalanceLaws.BackwardPassIdle | my_code/control_node/control_impl.cpp:202-309 | if the last node is within the limit after the forward pass the backward pass does nothing |
| BalanceLaws.PassesOutcome | my_code/control_node/control_impl.cpp:96-309 | nodes 1.. end within the limit; node 0 does too, or every other node is full to the brim |
| BalanceLaws.BalancedIffPossible | my_code/control_node/control_impl.cpp:90-312 | all nodes end within the limit if and only if some cut of the sequence into as many consecutive parts is within it |
| BalanceLaws.FirstNodeLeast | my_code/control_node/control_impl.cpp:90-312 | where node 0 ends over the limit, it holds a prefix of the first part of every cut whose other parts are within the limit, so no such cut leaves it smaller |
| BalanceLaws.ThreeOnTwo | my_code/control_node/control_impl.cpp:90-312 | three entries of one weight on two nodes are never balanced |
| BalanceLaws.SettleIdempotent | my_code/control_node/control_impl.cpp:90-312 | a second call leaves every node's data as the first left it |
| Limits.SettleBalances | my_code/control_node/control_impl.cpp:90-312 | in those integers: after both passes nodes 1.. are within the limit, and node 0 is if and only if some cut of the entries puts every part within it |
| BalanceCost.FirstNodeBound | my_code/control_node/control_impl.cpp:90-312 | node 0 ends within the limit or below total/n + (n-1)*w, w bounding the weight of an entry; all others end within it |
| BalanceCost.ShiftPotential | my_code/control_node/control_impl.cpp:96-309 | a forward migration raises the sum of node number times entry count by one, a backward one lowers it by one |
| BalanceCost.MovesBound | my_code/control_node/control_impl.cpp:96-309 | each pass migrates exactly as often as it changes that sum, so at most (n-1)*N times |
| Clusters.DirectorySorted | my_code/control_node/control_impl.cpp:151-180 | ranges that do not overlap are stored in node order |
| ClusterLaws.RouteSplits | my_code/control_node/control_impl.cpp:335-337 | a key is routed to the only node that may hold it |
| ClusterLaws.HeldKeyRoutes | my_code/control_node/control_impl.cpp:152-153 | every key a node holds is routed to that node |
| ClusterLaws.PutKeepsInv | my_code/control_node/control_impl.cpp:335-350 | a put changes one directory entry, stretching its range to the key, and keeps the invariant |
| ClusterLaws.DeleteKeepsInv | my_code/control_node/control_impl.cpp:393-417 | a delete of a present or absent key changes one directory entry, keeping its start and stretching its end to the key, and keeps the invariant |
| ClusterLaws.MigrateExact | my_code/control_node/control_impl.cpp:96-309 | a migration in either direction moves the boundary entry, makes both announced ranges exactly what the nodes hold, leaves all other entries alone and keeps the invariant |
| Refinement.MigrationEnabled | my_code/control_node/control_impl.cpp:97-180 | whenever a pass migrates, the boundary entry exists, its floor entry is the source's, the neighbour's entry is next to it and the source keeps an entry |
| Refinement.ReBalanceRefines | my_code/control_node/control_impl.cpp:90-312 | with directory edits and protocol, re_balance does to the data exactly what the boundary-shifting passes do |
| Refinement.ReBalanceKeepsInv | my_code/control_node/control_impl.cpp:90-312 | the directory and the data are still in step after re_balance |
| Refinement.RoutedIsGlobal | my_code/control_node/control_impl.cpp:335-380 | get, put and delete on the routed node act as on one sorted table of everything |
| Refinement.StepRefines | my_code/control_node/control_impl.cpp:327-430 | one command changes the stored map as the specification does and prints what it prints |
| Refinement.RunRefinesMap | my_code/control_node/control_impl.cpp:314-432 | over any run of commands the cluster prints what one map prints |
| Refinement.RunKeepsInv | my_code/control_node/control_impl.cpp:314-432 | the invariant holds between commands, and what is stored is what the map holds |
| Refinement.ReBalanceAchieves | my_code/control_node/control_impl.cpp:90-312 | re_balance keeps invariant and content, leaves nodes 1.. within the limit and all nodes if and only if that is possible, and a second call changes no data |
| Writes.WriteBalances | my_code/control_node/control_impl.cpp:327-430 | every put and every del of a non-empty word leaves the nodes so balanced, whatever they were before; every other command changes nothing at all |
| Writes.RunBalances | my_code/control_node/control_impl.cpp:314-432 | over any run balanced nodes stay balanced, and one write in the run is enough to make them so |
| Moments.NothingOutOfReach | my_code/control_node/control_impl.cpp:98-199 | between any two steps of a migration (fetch, two logs, two directory edits, two commits) every stored key is found, in data or with the log applied, at the node the directory then names |
| Moments.EventsMigrate | my_code/control_node/control_impl.cpp:96-309 | all the steps together are the migration, with every log empty again |
| Aborted.AbortReadIff | my_code/control_node/control_impl.cpp:138-180 | after an abort whose replies carry the announced smallest keys or none, the key that stayed is read if and only if the neighbour's reply does not name the key itself and, backward, the source's reply names none; otherwise it reads as absent |
| Aborted.NoBoundsNoChange | my_code/control_node/control_impl.cpp:155-176 | two replies without any bounds leave the directory as it was |
| Aborted.AbortLosesKey | my_code/control_node/control_impl.cpp:138-180 | so an abort whose replies carry the announced bounds makes the key that stayed read as absent |
| Seed.SeedOrderIff | my_code/control_node/control_impl.cpp:14-26 | the seeded table is in node order, and the invariant holds at the start, if and only if there are at most nine nodes |
| Seed.ToStringIsNumeral | my_code/control_node/control_impl.cpp:22 | to_string gives the one string of decimal digits without a leading zero that reads back as its argument |
| Seed.SeedComplete | my_code/control_node/control_impl.cpp:14-26 | for any number of nodes the seeded table has, under the numeral of i+1, the entry of node i with the range of just that key, for every node, and no other entry |
| Seed.TenNodesLoseKey | my_code/control_node/control_impl.cpp:14-26 | with ten nodes or more put 0, put 1, get 1 prints the empty string |
| Seed.FreshClusterIsMapIff | my_code/control_node/control_impl.cpp:7-29 | a fresh cluster answers every run as one map does if and only if it has at most nine nodes |
| DirectoryDb.EncDirRewrite | my_code/control_node/control_impl.cpp:161-165 | delete-then-put on the encoded table is the same edit of the directory |
| ControlLaws.IdleCommit | my_code/store_node/store_impl.cpp:35-49 | LOG and COMMIT take an idle node, its counter the scan of its data, to an idle node |
| ControlLaws.ProtocolMigrates | my_code/control_node/control_impl.cpp:96-309 | the four requests of a migration leave every node idle with the migrated data |
| ControlImpls.ControlImpl.constructor | my_code/control_node/control_impl.cpp:7-29 | an empty directory database is seeded, one with entries is kept |
| ControlImpls.ControlImpl.TracesDisciplined | my_code/control_node/control_impl.cpp:96-200 | every sequence of requests the control node has sent a node logs only while nothing is pending, and after each of them the log holds the pending record or nothing |
| ControlImpls.ControlImpl.Exchange | my_code/control_node/control_impl.cpp:31-39 | one exchange puts one node in the state the request leads to, leaves the others alone, and the reply decodes to the answer |
| ControlImpls.ControlImpl.NotTooMuch | my_code/control_node/control_impl.cpp:51-55 | the test by SIZE and LEO requests is the test on the node's data and changes no node |
| ControlImpls.ControlImpl.MoveMeta | my_code/control_node/control_impl.cpp:152-180 | the two snapshot-driven edits of the database are the two edits of the directory |
| ControlImpls.ControlImpl.MigrateOne | my_code/control_node/control_impl.cpp:96-309 | the loop body performs one migration, by exactly the steps of MigrationEvents in their order, and leaves all logs empty |
| ControlImpls.ControlImpl.TakeBack | my_code/control_node/control_impl.cpp:139-147 | DEL_LOG to both nodes leaves each in the state it was in before its LOG |
| ControlImpls.ControlImpl.DrainNode | my_code/control_node/control_impl.cpp:97-200 | the inner loop ends, after exactly the counted number of migrations |
| ControlImpls.ControlImpl.ReBalance | my_code/control_node/control_impl.cpp:90-312 | both passes end, in the specified state, after exactly the counted number of migrations |
| ControlImpls.ControlImpl.PutEntry | my_code/control_node/control_impl.cpp:327-362 | routes, logs, edits the directory and commits, in this order, as the specification's put |
| ControlImpls.ControlImpl.DeleteEntry | my_code/control_node/control_impl.cpp:382-428 | routes, logs, edits the directory and commits, in this order, as the specification's delete |
| ControlImpls.ControlImpl.Run | my_code/control_node/control_impl.cpp:314-432 | the command loop prints what one map prints, over real messages, buffers and databases, and leaves the nodes balanced if it wrote anything or they were before |
| ControlImpls.FreshRun | my_code/control_node/control_impl.cpp:7-29 | connecting to one to nine empty nodes with an empty directory database and running any list of commands prints what an empty map prints and leaves what the map then holds on the nodes, idle and balanced |

## Left out

- Sockets, connection set-up and stream framing: a request and its reply are one atomic exchange.
- The `quit` and `test` commands, `show`, `show_meta` and every other message printed on the console.
- RocksDB itself: only the order of its keys and the contract of its iterators are used.
- Crash and restart: the store constructor does not replay its log, so there is nothing the code decides. The
  control node's constructor is modelled for a directory database that already has entries, too.
- Raw memory: allocation sizes, leaked iterators and the unused iterator-returning `DB_Handle::get`.
- Overflow of the `int` counters and rounding of `double`: sizes are bounded by a precondition, doubles are reals.
- ControlImpls.ControlImpl.Run: asks that commands fit the buffers and that what is stored after each of them stays
  below 2^31 bytes, because beyond that the program writes past its buffers or overflows its counters.
- Refinement.CommandFits: bounds each key of a put or del by itself. A longer key that only ever meets shorter
  ones in a reply or a directory entry would still fit.
- ControlImpls.ControlImpl.MigrateOne: the branch for a store node that does not acknowledge is not entered, because
  store nodes always acknowledge; its effect is stated by TakeBack, RollbackByRequests and AbortReadIff.
- Clusters.MoveBoundary: where the program would step an iterator off the end of the directory and read through it,
  the second edit is left out; MigrationEnabled shows that this does not happen while the invariant holds.
- HandleBuff.DecStr: yields nothing where the program would read or write out of bounds.
- StoreSpec.Apply: a record that does not decode is not applied; the control node never sends one.
- BalanceCost.FirstNodeBound: the bound on node 0 is multiplied out by n so that it speaks of integers.
