# Disk scheduler decision core, modelled in Dafny

This project models `disk.c`, the decision layer of a disk I/O scheduler.
The layer has a bounded request queue and arrival and completion handlers
for three policies: first-come-first-served (FCFS), shortest-seek-time-first
(SSTF) and LOOK (the elevator).

- `requests.dfy` (module `Requests`): the request control block `RCB`, the all-zero
  sentinel `NullRcb`, the idle test (current id equals the sentinel's id), seek
  distance, and `Removed`, the order-preserving removal of one entry.
- `fcfs.dfy`, `sstf.dfy`, `look.dfy`: one module per policy.
  - Each states the entry its completion must pick in two forms. One is a
    declarative predicate (`IsFcfsChoice`, `IsSstfChoice`, `IsLookChoice` and
    the three LOOK sub-rules). The other is a function that scans prefixes the
    way the C loop scans the array (`FcfsIndex`, `SstfIndex`, `LookIndex`, …).
  - Each function's contract proves it meets the predicate.
  - The module's lemmas prove uniqueness, service order, LOOK's reversal and
    where LOOK and SSTF agree.
- `disk.dfy` (module `Disk`): class `RequestQueue`.
  - Its fields are the fixed array `queue` and the count `count`. The array's
    length plays the role of `QUEUEMAX`, and `Valid()` is `count <= QUEUEMAX`.
  - The handlers change both fields in place.
  - The scans are read-only loop methods, each proved equal to its policy's
    index function.
  - `RemoveAt` is the shared shift-left loop. Its contract gives the whole new
    array: the entries before the served one, the entries after it moved one
    place left, and the untouched slot past the new count.
  - Two client methods show what a caller can prove from the handlers'
    contracts alone.
- `wrappers.dfy`: `Option`, used for "no candidate yet" in place of the C's `-1`
  index and `INT_MAX` distance seeds.

## Model

| member | source | states |
|---|---|---|
| Requests.RemovedAt | disk.c:41-43 | after the shift, entry j is old entry j before the served index and old entry j+1 from it on; the length drops by one |
| Requests.RemovedMultiset | disk.c:41-45 | removal takes exactly one copy of the served request out of the queue; the rest keep their multiplicities |
| Requests.InRemoved | disk.c:41-43 | every entry left after a removal came from a different index of the old queue |
| Requests.RemovedIsGone | disk.c:186-190 | with distinct request ids, the served request's id no longer appears in the queue, and the remaining ids stay distinct |
| Fcfs.FcfsIndex | disk.c:30-38 | the scan's choice has the minimum arrival timestamp over the queue; the strict `<` makes ties go to the lowest index |
| Fcfs.FcfsChoiceIsIndex | disk.c:33-38 | an index meets the FCFS rule if and only if it is the scan's choice, so the rule fixes the choice uniquely |
| Fcfs.FcfsServiceOrderIsPermutation | disk.c:23-48 | repeated FCFS completions with no arrivals serve exactly the queued requests, each once |
| Fcfs.FcfsServesInArrivalOrder | disk.c:23-48 | repeated FCFS completions serve in non-decreasing timestamp order; with distinct timestamps the order is strictly increasing |
| Sstf.SstfIndex | disk.c:83-90 | the scan's choice minimises the seek distance; among those at that distance it has the smallest timestamp; among full ties it is the lowest index |
| Sstf.SstfChoiceIsIndex | disk.c:83-90 | an index meets the SSTF rule if and only if it is the scan's choice |
| Sstf.SstfNothingPreferred | disk.c:85 | no queued entry passes the scan's replacement test against the chosen one |
| Sstf.SstfNearestWins | disk.c:83-90 | with cylinders 10, 50 and 90 and the head at 40, the request at 50 is chosen |
| Sstf.SstfTieGoesToEarlier | disk.c:85 | with cylinders 30 and 50 and the head at 40, the earlier arrival is chosen |
| Look.SameCylinderIndex | disk.c:133-139 | there is no result exactly when no entry is on the head's cylinder; otherwise the result is the earliest arrival there, lowest index on ties |
| Look.AheadIndex | disk.c:144-153 | there is no result exactly when nothing lies strictly ahead (above for direction 1, below for any other value); otherwise the result is the nearest entry ahead, lowest index on ties |
| Look.NearestIndex | disk.c:155-161 | the result is the globally nearest entry, lowest index on ties, with no timestamp tie-break |
| Look.LookIndex | disk.c:133-183 | the three rules in order: same cylinder, else nearest ahead, else globally nearest; a non-empty queue always yields an index |
| Look.LookSameCylinderIgnoresDirection | disk.c:133-143 | when some entry is on the head's cylinder, it is served whatever the scan direction |
| Look.LookReverses | disk.c:154-162 | with nothing on the head's cylinder or ahead, LOOK serves a request strictly behind the head, and it is the nearest of all |
| Look.LookMatchesSstfOnHeadCylinder | disk.c:133-139 | when some entry is on the head's cylinder, LOOK and SSTF serve the same index |
| Look.LookFallbackSeeksLikeSstf | disk.c:154-162 | in the reversal case LOOK's seek distance equals SSTF's |
| Look.LookSameCylinderExample | disk.c:133-139 | for (cylinder 40, time 5), (40, 2), (60, 1) with the head at 40, the (40, 2) entry is chosen in either direction |
| Look.LookReversalExample | disk.c:144-162 | a lone request at 20 with the head at 50 sweeping up is chosen |
| Disk.RequestQueue.constructor | disk.c:10 | an empty queue over a fresh array whose length is the capacity |
| Disk.RequestQueue.Arrive | disk.c:10-20 | idle disk: returns the new request, queue and count unchanged; busy with room: the new request is stored at index count, count + 1, earlier entries unchanged, current returned; busy and full: current returned, nothing changes |
| Disk.RequestQueue.HandleArrivalFcfs | disk.c:10-20 | the shared arrival behaviour |
| Disk.RequestQueue.HandleArrivalSstf | disk.c:54-67 | the shared arrival behaviour |
| Disk.RequestQueue.HandleArrivalLook | disk.c:105-118 | the shared arrival behaviour |
| Disk.RequestQueue.RemoveAt | disk.c:41-45 | returns old entry k; the count drops by one; the pending requests become the old ones without entry k, in order; the whole new array is given slot by slot |
| Disk.RequestQueue.SelectFcfs | disk.c:30-38 | the loop's index is FcfsIndex of the pending requests |
| Disk.RequestQueue.HandleCompletionFcfs | disk.c:23-48 | empty queue: returns NullRcb and changes nothing; otherwise serves and removes the FcfsIndex entry |
| Disk.RequestQueue.SelectSstf | disk.c:78-90 | the loop, seeded with the first entry, ends on SstfIndex of the pending requests |
| Disk.RequestQueue.HandleCompletionSstf | disk.c:71-101 | empty queue: returns NullRcb and changes nothing; otherwise serves and removes the SstfIndex entry |
| Disk.RequestQueue.ScanSameCylinder | disk.c:128-139 | the loop's result is SameCylinderIndex of the pending requests |
| Disk.RequestQueue.ScanAhead | disk.c:144-153 | the loop, tracking the closest distance, ends on AheadIndex of the pending requests |
| Disk.RequestQueue.ScanNearest | disk.c:155-161 | the loop ends on NearestIndex of the pending requests |
| Disk.RequestQueue.SelectLook | disk.c:128-183 | the three scans in order give LookIndex of the pending requests |
| Disk.RequestQueue.HandleCompletionLook | disk.c:122-193 | empty queue: returns NullRcb and changes nothing; otherwise serves and removes the LookIndex entry |
| Disk.DropsWhenFull | disk.c:14-18 | a busy disk with capacity 2 drops the third arrival and keeps the first two in order |
| Disk.ServesEarlierArrivalFirst | disk.c:23-48 | two queued requests come out of FCFS completion earliest first, and then NullRcb |

## Left out

- The other fields of the request record are not known here, because the header that declares it is not part of this model. They are the opaque `payload` pair, copied but never read. `NullRcb` is all zeros, as the five-zero initialiser gives.
- C `int` limits are not modelled: the `abs` overflow, the `INT_MAX` and `__INT_MAX__` seeds, and the signed subtraction. Integers are mathematical, and "no candidate yet" is explicit (`None`, or the first entry as seed). So the model never reaches the cases the C gets wrong: a distance equal to `INT_MAX`, where SSTF would read the uninitialised `selected_request` and LOOK would index `-1`.
- HandleCompletionSstf: the C guard `index_to_remove != -1` always holds on a non-empty queue once distances are below the seed, so removal is unconditional here.
- Disk.RequestQueue.ScanAhead: the C writes two loops, one for `scan_direction == 1` testing `>` and one for any other value testing `<`. The model is one loop over `IsAhead`, and it computes the same signed difference that each C loop computes.
- The unused `timestamp` parameter of the arrival handlers is dropped, because it has no effect.
- The driver is not modelled: creating requests, advancing time, and moving `current_cylinder` and `scan_direction`. The current request is passed in and returned by value.
- Idleness is decided by the request id alone, as in the code. A current request whose id is 0 counts as idle, whatever its other fields. A full queue still drops arrivals silently: no admission flag is returned, and only the count shows whether the request was admitted.
