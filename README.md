# Sweep-line polygon triangulation, modelled in Dafny

This project models `triangulate_polygon` (triangulate.cpp) of a small OpenGL
polygon editor, together with the `Point` and `Triangle` types it uses
(triangulate.h). The function takes the polygon's vertices and returns index
triangles. It works in four steps:

1. It builds 2·n sweep events, a START and an END for each vertex index. Each
   event carries the vertex's coordinates.
2. It sorts them by x. At equal x a START comes before an END. Events that tie
   come out in an unspecified order.
3. It walks the events and keeps an *active chain* of vertex indices. A START
   pushes its index and then scans back over pairs of chain entries. An END
   scans forward over pairs and then erases its own index.
4. Both scans emit a triangle whenever the cross-product test `is_above` is
   strictly positive.

## What the code does

A sweep-line triangulation is usually expected to give n − 2 triangles for a
convex polygon. This code does not, and the model follows the code:

- **A START event emits nothing, whatever the chain holds.** The first pair the
  backward scan tests ends with the index it has just pushed. A point is never
  strictly above a segment that ends in it, so the scan stops at once
  (`ActiveChain.PushedStartIdle`, `ActiveChain.StartEvent`).
- **An END event emits nothing.** Events are sorted by x with START first at
  equal x. So every vertex on the chain during an END has the x of the event's
  vertex (`Sweep.OpenOnColumn`). Three points on one vertical line give a cross
  product of 0 (`ActiveChain.ColumnEndIdle`).
- **The result is empty for every input** (`Sweep.Walk`,
  `Sweep.TriangulatePolygon`). This holds for every order the sort may give to
  events that tie, because `Walk` is proved for every sorted rearrangement of
  the built events.

The code has two possible memory errors. The model shows that neither can
happen:

- At triangulate.cpp:48, `size() - 1` on an empty vector would wrap to the
  largest `size_t`. Then `activePoints[0]` would be read out of bounds.
- At triangulate.cpp:53, `erase(std::find(...))` would erase `end()` if the
  index were missing.

`ActiveChain.EndEvent` requires a non-empty chain. It also requires that the
index is still on the chain after the forward scan. `Sweep.Walk` discharges both
at every END, from the chain's reference description `Sweep.Open`: the vertices
whose START has been handled and whose END has not, in START order.

Integer widths are written out. `Machine.SizeSub` is `size_t` subtraction
modulo 2^64. `Machine.ToInt` is the `(int)` conversion to 32 bits. The backward
scan starts at `(int)(size - 2)`. On a one-entry chain this wraps and then
converts back to −1 (`Machine.LastPairStart`).

Files: `geometry.dfy` (points, triangles, `is_above`), `machine.dfy`
(fixed-width arithmetic), `vectors.dfy` (`std::find`, `vector::erase`),
`events.dfy` (events, comparator, construction, sort), `chain.dfy` (the START
and END handlers), `sweep.dfy` (the walk and `triangulate_polygon`).

## Model

| member | source | states |
|---|---|---|
| Geometry.IsAbove | triangulate.cpp:14-16 | the test holds exactly when p1, p2, p turn clockwise (negative orientation determinant) |
| Geometry.IsAboveEndpoint | triangulate.cpp:15 | the test is strict: false when p is p1 or p2, or when p1 is p2 |
| Geometry.IsAboveVertical | triangulate.cpp:15 | false when all three points share one x |
| Machine.SizeSub | triangulate.cpp:48 | `size - k` in `size_t`: exact when k ≤ size, 2^64 − (k − size) otherwise |
| Machine.ToInt | triangulate.cpp:39 | `(int)u` lies in the 32-bit range, agrees with u modulo 2^32, and is u when u ≤ INT_MAX |
| Machine.LastPairStart | triangulate.cpp:39 | `(int)(size - 2)` is size − 2 for every size from 1 to 2^31, wrap-around included |
| Machine.LastPairBound | triangulate.cpp:48 | `size - 1` wraps to the largest `size_t` exactly when the vector is empty |
| Events.Precedes | triangulate.cpp:29-31 | the comparator is "smaller key 2·x + kind", a strict weak order: ascending x, START before END at equal x |
| Events.BuildEvents | triangulate.cpp:23-27 | the loop builds 2·n events: the START of vertex i at 2i, its END at 2i + 1, both carrying points[i] |
| Events.EventAtPair | triangulate.cpp:25-26 | positions 2i and 2i + 1 of the built list hold vertex i's START and END |
| Events.EventsOfMembers | triangulate.cpp:24-27 | an event is built exactly when its index is a vertex and it carries that vertex's point (either kind) |
| Events.EventsOfDistinct | triangulate.cpp:24-27 | no event is built twice |
| Events.InsertSorted | triangulate.cpp:29-31 | inserting into a sorted list keeps it sorted and adds exactly that event |
| Events.SortEvents | triangulate.cpp:29-31 | the result is sorted by the comparator and is a permutation of the input |
| Vectors.Find | triangulate.cpp:53 | `std::find` gives the first position holding x, and gives `end()` exactly when x is absent |
| Vectors.EraseAt | triangulate.cpp:42 | `erase` makes the vector one shorter, keeps the entries before p and moves the later ones down |
| Vectors.EraseFound | triangulate.cpp:53 | in a vector without repeats, erasing what `std::find` found removes exactly that value |
| ActiveChain.StartScanAccounts | triangulate.cpp:40-43 | on any chain, the backward scan erases one entry per triangle, and each triangle joins two vertices to the event's vertex |
| ActiveChain.EndScanAccounts | triangulate.cpp:48-51 | the same for the forward scan |
| ActiveChain.PushedStartIdle | triangulate.cpp:39-40 | right after the push, the backward scan stops at once with nothing emitted |
| ActiveChain.ColumnEndIdle | triangulate.cpp:48 | on a chain lying on the vertical line of the END's vertex, the forward scan stops at once |
| ActiveChain.ScanBack | triangulate.cpp:40-44 | the START loop leaves the chain and appends the triangles that the backward scan specifies |
| ActiveChain.StartEvent | triangulate.cpp:37-44 | for every chain, a START appends exactly its own index and emits no triangle |
| ActiveChain.ScanForward | triangulate.cpp:47-52 | the END loop leaves the chain and appends the triangles that the forward scan specifies |
| ActiveChain.EndEvent | triangulate.cpp:46-53 | given a non-empty chain that still holds the index after the scan, the END erases that index after the scan. On a vertical chain it emits nothing and erases only that index |
| Sweep.SweepOrderEvents | triangulate.cpp:24-31 | the sorted list has 2·n events, none twice: each vertex's START and END with its coordinates |
| Sweep.StartsBeforeEnds | triangulate.cpp:30 | in the sorted list, at equal x every START precedes every END |
| Sweep.StartBeforeEnd | triangulate.cpp:30 | every vertex's START is handled before its END |
| Sweep.EventAtPosition | triangulate.cpp:36 | each handled event belongs to a vertex, carries its coordinates and occurs only at its own position |
| Sweep.OpenMembers | triangulate.cpp:36-54 | after k events, vertex j is open exactly when its START is among them and its END is not |
| Sweep.OpenFacts | triangulate.cpp:38 | the open vertices have no repeats, are vertex indices, and number at most n |
| Sweep.OpenOnColumn | triangulate.cpp:47-48 | every open vertex has the x of the next event to handle |
| Sweep.OpenAfterStart | triangulate.cpp:38 | handling a START appends its index to the open list |
| Sweep.OpenAfterEnd | triangulate.cpp:53 | handling an END finds its index open and removes it, and nothing else |
| Sweep.OpenEmptyAtColumnEnd | triangulate.cpp:36-55 | the open list is empty after the last event and whenever the next event has a larger x |
| Sweep.InStartOrderAppend | triangulate.cpp:38 | pushing the index of the START just handled keeps the list in START order |
| Sweep.OpenInStartOrder | triangulate.cpp:38 | the open list is in the order its STARTs were handled |
| Sweep.Walk | triangulate.cpp:33-57 | for every sorted permutation of the built events, the walk returns no triangle and leaves the active chain empty (its loop keeps the chain equal to the open list) |
| Sweep.TriangulatePolygon | triangulate.cpp:21-58 | `triangulate_polygon` returns an empty list for every input of at most INT_MAX points |

## Left out

- main.cpp, Source.cpp, gl_functions.cpp and gl_functions.h are not part of this model. They hold window creation, the message loop, GL shader and buffer setup, `make_ortho` and the input handlers. The 'T' key handler calls a polygon-partition library whose source is not available, not `triangulate_polygon`.
- IEEE-754 `double` behaviour (rounding, NaN, infinities, −0.0) of `Point` and `is_above`: coordinates are exact integers, so the sign test is exact.
- `std::sort` works in place with an unspecified algorithm. The model only keeps its postcondition, "sorted by the comparator and a permutation", and meets it with an insertion sort over a sequence. `Sweep.Walk` holds for every sorted permutation, so no tie order is assumed.
- The `events`, `activePoints` and `triangles` vectors are immutable sequences that each step reassigns. Memory allocation failure in `push_back` is not modelled.
- Inputs of more than INT_MAX (2^31 − 1) points: the 32-bit `int` loop counter at triangulate.cpp:24 would overflow, so `Sweep.TriangulatePolygon` and `Events.BuildEvents` require at most that many.
- No triangle-count or area property (such as n − 2 triangles for a convex polygon) is stated: the code returns no triangle for any input (see "What the code does").
- `size_t` is taken to be 64 bits wide (`Machine.SIZE_MODULUS`). On a 32-bit build it is 32 bits; for every chain size the model reaches, `(int)(size - 2)` and the `size - 1` bound give the same results either way.
