# Connected-domain labeler

A Dafny model of the labeler exported by `lib/connected-domain.js`.

The labeler takes a two-dimensional array (rows of cells, possibly of different
lengths) and an `indicator` callback that gives each cell a label. It scans the
cells in row-major order. For each cell it looks at one already-visited
neighbour: the first truthy cell among top, left and top-left. When that
neighbour's stored label equals the cell's label, the cell joins the neighbour's
domain. Otherwise the cell opens a new domain under the next id (1, 2, 3, ...).
After the scan, every live domain gets the bounding box of its points, and the
table of domains, keyed by id, is returned.

Files:

- `wrappers.dfy`: the `Option` and `Result` datatypes.
- `connected_domain.dfy`, module `ConnectedDomain`. It holds:
  - the grid and the neighbour lookup;
  - the bounding-box computation;
  - the class `DomainTable`, the labeler's mutable state: the `domains` table, the
    `domainUUID` counter, and a position index standing in for the
    `_identifier`/`_domainId` tags the source writes onto visited cells;
  - the scan itself (`Label`, `ScanRow`).

How the source is read:

- **Cells.** A cell is `Null`, `Falsy` or `Truthy`. The row loop visits every
  element, so falsy cells (0, "", false) are labelled and get a domain. The
  neighbour lookup never picks one, because the `||` chain skips falsy operands.
- **Null cells.** Tagging a null cell (lines 141-142, 158-159) throws, so the
  whole call fails at the first null cell in scan order. This is
  `Err(NullCell(x, y))`.
- **Missing inputs.** A missing grid or indicator throws before anything else
  happens (lines 12-18): `Err(MissingGrid)` and `Err(MissingIndicator)`.
- **Label comparison, line 55.** Line 55 compares `neighbour.identifier`, while
  the tag written onto a cell is `_identifier`. The model reads it as the
  neighbour's stored label, i.e. its tag in the position index.
- **Neighbours and merging.** The `||` chain at lines 39-48 pushes at most one
  neighbour, so the merge branch of lines 60-62 is never reached from the scan.
  `mergeDomains` is modelled and verified on its own (`DomainTable.MergeDomains`).
- **Final pass, line 76.** Line 76 calls `forEach` on the plain object
  `domains`. It is modelled as a pass over the live entries of the table.

The main result is `Label`'s contract, which ties a successful run to the
predicate `Labelling`:

- every cell of the grid is a point of exactly one live domain;
- every point carries its domain's label and id, and its value and label come
  from its cell;
- a domain's first point is exactly a cell that does not match its neighbour;
- a cell that matches its neighbour (same label) is in the neighbour's domain;
- the ids are exactly 1, ..., N, numbered in the scan order of each domain's first
  cell, and every domain lists its points in scan order;
- every domain carries the bounding box of its points;
- the total number of points equals the number of cells.

A failed run returns the first null cell in row-major order.

## Model

| member | source | states |
|---|---|---|
| `ConnectedDomain.Label` | lib/connected-domain.js:10-78 | Missing grid or indicator fails before any domain exists. A null cell fails at the first null cell in scan order. Otherwise the result partitions the cells into domains: each cell in exactly one, labels from the indicator, matching neighbours in the same domain, boxes set, point count equal to cell count. The ids are exactly 1..N, domain k+1 was opened after domain k, and each domain lists its points in scan order. |
| `ConnectedDomain.ScanRow` | lib/connected-domain.js:31-73 | Visiting one row keeps the table valid, and the counter stays equal to the number of domains. It either extends the scan invariant to the start of the next row, or stops at the row's first null cell, which is the first null of the grid. The invariant covers the ids 1..N in opening order, points in scan order, and one point more per cell. |
| `ConnectedDomain.ScanCell` | lib/connected-domain.js:33-72 | Visiting one non-null cell moves the scan invariant one cell on. The table stays valid, the counter stays equal to the number of domains, and the total grows by one. |
| `ConnectedDomain.Neighbour` | lib/connected-domain.js:39-48 | The neighbour is the first truthy cell among top, left and top-left, in that order. It is absent exactly when none of the three is truthy (outside the grid counts as not truthy). It always comes earlier in scan order. |
| `ConnectedDomain.DomainTable.Visit` | lib/connected-domain.js:33-72 | The cell joins the neighbour's domain when the neighbour's stored label equals the cell's label; otherwise it opens a domain under the next id, which is not yet in the table. The counter is kept on a join and grows by one, with the new id appended to the issued ids, on a new domain. The table stays valid, and the point count grows by one. |
| `ConnectedDomain.VisitScanned` | lib/connected-domain.js:33-72 | After a visit, exactly the cells up to and including this one are tagged, each with its own label. A cell matching its neighbour shares the neighbour's domain id. Every point comes from the grid and heads its domain exactly when it opened it. |
| `ConnectedDomain.VisitOrder` | lib/connected-domain.js:50-72 | A visit keeps the ids exactly 1..N and every domain in scan order: a join appends the latest cell, a new domain takes id N+1 and starts at the latest cell. The number of domains grows exactly when the new id is used. |
| `ConnectedDomain.JoinOrder` | lib/connected-domain.js:155-169 | Appending the latest cell to a non-empty domain keeps the ids and the scan order, and the number of domains. |
| `ConnectedDomain.NewOrder` | lib/connected-domain.js:124-147 | Opening a domain at the latest cell under id N+1 keeps the ids dense (1..N+1) and the domains in scan order. |
| `ConnectedDomain.OpenedInOrder` | lib/connected-domain.js:128 | In a labelling, a domain with a smaller id was opened at an earlier cell, for any two ids. |
| `ConnectedDomain.VisitJoined` | lib/connected-domain.js:50-59 | Tagging the visited cell with its neighbour's domain whenever it matches keeps every matching tagged cell in its neighbour's domain. |
| `ConnectedDomain.NextRowScanned` | lib/connected-domain.js:29-31 | The end of row y is the start of row y + 1 for the scan invariant. |
| `ConnectedDomain.ScanComplete` | lib/connected-domain.js:74-78 | The scan invariant over the whole grid, plus the boxes of the final pass, give the full labelling. That means a partition of the cells, the neighbour property, ids 1..N in opening order, points in scan order, the boxes and the point count. |
| `ConnectedDomain.DomainTable.constructor` | lib/connected-domain.js:24-25 | The table starts empty, with the counter at 0 and nothing tagged. |
| `ConnectedDomain.DomainTable.AddNewDomain` | lib/connected-domain.js:124-147 | The counter grows by one. The new id is appended to the ids issued so far (1, 2, 3, ...) and was never issued before. The table gains exactly one domain, holding one point with the arguments and the new id. Every other domain is unchanged. |
| `ConnectedDomain.NewDomainValid` | lib/connected-domain.js:124-147 | Opening a domain under an unused id for an untagged cell keeps the table and the position index consistent. |
| `ConnectedDomain.TotalInsert` | lib/connected-domain.js:146 | Storing a domain under a fresh id adds its points to the total. |
| `ConnectedDomain.DomainTable.AddPointToDomain` | lib/connected-domain.js:155-169 | Exactly one point is appended to the named domain, carrying that domain's label and id. The cell is tagged the same way. No other domain changes, the counter is kept, and the total grows by one. |
| `ConnectedDomain.AddPointValid` | lib/connected-domain.js:155-169 | Appending an untagged cell to a live domain keeps the table and the position index consistent. |
| `ConnectedDomain.TotalReplace` | lib/connected-domain.js:168 | Replacing a domain changes the total by the difference of the point counts. |
| `ConnectedDomain.DomainTable.MergeDomains` | lib/connected-domain.js:176-195 | With equal labels, A's points become A's old points followed by B's points re-tagged with A's id, B leaves the table, and the tags of B's cells name A. With different labels nothing changes. The table stays valid, and the total and the counter are kept. |
| `ConnectedDomain.MovePoints` | lib/connected-domain.js:186-188 | Every point of the absorbed domain, in order, gets the surviving id, and so does the tag of its cell. No other tag changes. |
| `ConnectedDomain.AbsorbedValid` | lib/connected-domain.js:176-195 | Folding B into A (same label) keeps the table and the position index consistent. |
| `ConnectedDomain.AbsorbedTotal` | lib/connected-domain.js:190-193 | Folding B into A keeps the total. A ends with its own count plus B's, and only B's id leaves the table. |
| `ConnectedDomain.TotalRemove` | lib/connected-domain.js:193 | Deleting a domain removes exactly its points from the total, whichever domain it is. |
| `ConnectedDomain.CalculateBounding` | lib/connected-domain.js:80-115 | For a non-empty list, x and y are the least coordinates, w and h are non-negative, every point lies in [x, x+w] × [y, y+h], and all four edges are reached by some point. A single point gives w = h = 0. The empty list gives null x, y and zero extents. |
| `ConnectedDomain.BoundingUnique` | lib/connected-domain.js:80-115 | A list of points has only one box satisfying that description. |
| `ConnectedDomain.DomainTable.CalculateAllBoundings` | lib/connected-domain.js:76-78 | Every live domain gets the bounding box of its points. Ids, labels, points and tags are kept, and the table stays valid. |
| `ConnectedDomain.BoxAll` | lib/connected-domain.js:76-78 | The pass over the live entries keeps the same ids. It changes nothing but each domain's box, which becomes the box of its points. |
| `ConnectedDomain.ReboxedValid` | lib/connected-domain.js:76-78 | Changing only the boxes keeps the table and the position index consistent. |

## Left out

- `test/index.js` is not part of this model. It reads a text file from disk and prints the result.
- The deep copy of line 21 (`JSON.parse(JSON.stringify(...))`) is a value copy: the grid is a Dafny value, so the caller's array is never changed. JSON serialisation itself is not modelled, beyond turning `undefined` into null.
- The `_identifier` / `_domainId` properties written onto cell objects (lines 141-142, 158-159, 187) are an explicit position index. Object aliasing, and the silent loss of such writes on primitive cells, are not modelled.
- Line 55 as written reads `neighbour.identifier`, a property the labeler never writes. The model compares against the neighbour's stored label instead.
- Line 76 as written calls `forEach` on a plain object, which has no such method. The model iterates over the live entries of the table instead.
- The labeler's intended behaviour skips absent cells and merges up to three matching neighbours. The code throws on a null cell and keeps at most one neighbour. The model follows the code.
- The merge branch of lines 60-62 cannot run from the scan, because at most one neighbour is found. `DomainTable.MergeDomains` is therefore verified on its own and is not called by `Label`.
- MergeDomains: requires two distinct ids. Its only call site (line 60) guards against equal ids. Called with one id twice, the source would double that domain's points and then delete it.
- A grid whose rows are not arrays (`row.forEach` on null) and a non-array grid are not modelled: a grid is a sequence of sequences. A falsy grid or indicator is modelled as a missing one (`None`).
- The indicator is a total function from (value, x, y) to a label. Its exceptions and side effects are not modelled. JavaScript's loose `==` on labels is modelled as Dafny equality.
- Numbers are unbounded integers. JavaScript doubles, and a counter beyond 2^53, are not modelled.
- The result is a map from id to domain, not an object with ordered keys. JavaScript lists integer keys in ascending order, so the ids 1..N that `Label` promises fix that order.
