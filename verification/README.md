# Verified models of the camera firmware's algorithmic cores

This project models, in Dafny, the parts of the repository that compute rather than drive devices, and
proves what they are for. `dafny verify dfyconfig.toml` checks all of it.

- **FastLZ codec** (`Lz77`, `OpcodeStream`, `FastLzFormat`, `FastLzDecoder`, `FastLzCompressor`). The
  decoders are array methods proved equal to a recursive decoding of the opcode stream, which is proved to
  undo the encoding of any list of opcodes that the format can express; the compressors are array methods
  with the hash table, whose output is such an encoding of their input. Together: decompressing what was
  compressed gives back every non-empty input, at both levels, within the expansion bound.
- **Matrix elimination** (`MatrixAlgebra`, `Elementary`, `Determinants`, `MatrixClass`, `Elimination`).
  Elimination on a flat array in place, with the list of recorded operations replayed forwards or backwards; from
  that the two-sided inverse, and the determinant up to the sign that the code loses. Numbers are reals.
- **Matrix arena and inertial filter** (`Arena`, `InertialFilter`). The linked list that owns all matrices,
  and the filter that has to keep two of them alive.
- **Ring queue and upgrade receiver** (`RingQueue`, `Upgrade`). Every operation is one step taken under the
  queue's lock, and every statement about runs holds for every interleaving of such steps. The receiver's two
  threads use the queue to pass slot numbers.
- **Line drawing** (`Paint`). Bresenham's algorithm against the ideal line, and the bitmap it leaves.
- **Driver monitor** (`AlarmTimer`, `AngleAverage`). The cool-down of repeated alarms over unbounded runs, the
  settings under which the overspeed alarm can fall silent, and the average angle of the most frequent classes.
- **Images** (`PanelImage`, `GuiZoom`, `AntiShake`). Overlay panels that are kept compressed, fixed-point
  resizing, and the rectangle filter.

Code that changes things in place is modelled by methods and classes that do the same; the functions they are
proved against carry the properties.

The main results are `FastLzCompressor.Compress` with `FastLzDecoder.Decompress`, `FastLzDecoder.OverreadExactly`,
`Elimination.Inverse`, `Elimination.Determinant`, `Arena.Conservation`, `InertialFilter.Filter.Run`,
`RingQueue.AlwaysInv`, `RingQueue.ReadersIndependent`, `Upgrade.FileReassembled`, `Upgrade.FilledSlotNotQueued`,
`Paint.HalfPixel`, `Paint.DrawPolyline`, `AngleAverage.CalcAnglesAverage`, `AlarmTimer.Cooldown`,
`AlarmTimer.ReportExactly`, `AlarmTimer.SilenceIff`, `AlarmTimer.RunDueExactly`, `PanelImage.UpdateImages`,
`GuiZoom.InsideExactly` and `AntiShake.NeverDrifts`. The other members lead to them or say in numbers and
coordinates what their definitions mean, and the last rows of the table are small steps.

Points where the code is not what it seems:

- The level-2 decoder may read one byte behind its input when the stream is malformed
  (`FastLzDecoder.OverreadExactly` says exactly when, `FastLzDecoder.SafeLastByte` is a test on the last byte);
  level 1 never does. No stream that the compressors write has this effect, whatever the capacity
  (`FastLzCompressor.DecodesTo`, which every compressor ensures).
- The panels are compressed into a buffer of the image's own length, but the output is longer than the input by one
  byte in 32, rounded up, where no three bytes in a row occur a second time, and always for inputs of up to 16 bytes
  (`PanelImage.PackPanel`).
- `M_Inverse` follows the null head of an empty operation list for the matrices of order 1, invertible or not, and
  exactly for those of a higher order in which every column but the last is zero from the diagonal down; for the
  other singular ones the eliminations end normally and the inversion of the diagonal divides by zero
  (`Elimination.Inverse`, `Elimination.BothFailuresHappen`).
- `M_det` multiplies the pivots and forgets the sign of the row exchanges: its result is the determinant exactly
  when the number of exchanges is even or the matrix is singular, and the negated determinant otherwise
  (`Elimination.Determinant`, `Elimination.WrongSign`).
- The reassembled upgrade file is the original exactly when the needed number of frames has been saved, or when
  more have been saved and the size is a multiple of the payload: `rest_file_size` is not reset after a partial
  last frame (`Upgrade.SavedIsOriginal`, `Upgrade.FrameTooMany`).
- An overspeed alarm that is held back by the working speed silences all later ones until the interval is changed
  (`AlarmTimer.SilenceExactly`). That takes a speed above the limit and below the working speed, so it can happen
  exactly when the working speed is positive and more than one above the limit, and the customer is not
  VUE (`AlarmTimer.SilenceIff`); otherwise the alarm comes when it should
  (`AlarmTimer.RunDueExactly`).
- The end point of a line is reached by the walk but never stamped (`Paint.WalkEnds`, `Paint.EndNotStamped`).
- Resizing reads beyond the source's last column unless the two sizes fit each other
  (`GuiZoom.InsideExactly`, `GuiZoom.OneToManyIsOutside`).

## Model

| member | source | states |
|---|---|---|
| Lz77.CopyBackRepeats | bsd/common/common_zip.c:98-118 | a back-reference leaves what was there and repeats, byte for byte, what stands its distance before, also where it overlaps itself |
| Lz77.CopyBackUnique | bsd/common/common_zip.c:98-118 | that repetition determines the copy |
| Lz77.CopyBackSplit | bsd/common/common_zip.c:273-279 | a match cut into parts copies the same bytes as the whole one |
| OpcodeStream.RoundTrip | bsd/common/common_zip.c:361-387 | for any invertible format: decoding the encoding of a list of opcodes gives the list's LZ77 meaning where there is room for it and is refused where there is not, whatever the top bits of the first byte are |
| OpcodeStream.SmallerCapacity | bsd/common/common_zip.c:361-387 | a stream that some capacity is enough for is decoded to the same bytes with every smaller one that they fit, and refused with every other |
| FastLzFormat.Level1Invertible | bsd/common/common_zip.c:271-289 | every literal run of 1 to 32 bytes and every level-1 match is read back as it was written |
| FastLzFormat.Level2Invertible | bsd/common/common_zip.c:392-423 | the same at level 2: chained lengths, near and far distances, and the (31, 255) escape never means a near distance |
| FastLzFormat.FormatRoundTrip | bsd/common/common_zip.c:570-579 | a list of expressible opcodes that starts and ends with a literal is decoded by the dispatching decoder too, exactly when its bytes fit: the tag in the first byte chooses the level and loses nothing |
| FastLzFormat.LiteralBytes | bsd/common/common_zip.c:537-542 | a control byte under 32 stands for the next one to 32 bytes, and is refused where there are fewer |
| FastLzFormat.Level1Bytes | bsd/common/common_zip.c:361-384 | which length and distance the bytes of a level-1 match mean, in numbers |
| FastLzFormat.Level2Bytes | bsd/common/common_zip.c:513-530 | the same for a long level-2 match: any number of 255s in its length, near and far distances |
| FastLzFormat.Level2Short | bsd/common/common_zip.c:513-530 | the same for a short one |
| FastLzFormat.OpenChain | bsd/common/common_zip.c:514-518 | a length chain that runs out is refused |
| FastLzFormat.TagMeans | bsd/common/common_zip.c:570-579 | the upper three bits of the first byte choose the level, and other tags are refused |
| FastLzDecoder.Memmove | bsd/common/common_zip.c:98-118 | for every overlap the copy is the forward byte-by-byte one |
| FastLzDecoder.ExecuteMatch | bsd/common/common_zip.c:532-535 | a match is refused when it would leave the output or reach before its start, else it extends the output by the copy; nothing at or behind maxout is written |
| FastLzDecoder.ExecuteLiteral | bsd/common/common_zip.c:537-542 | a literal is refused when it would leave the output or the input, else it extends the output by its bytes |
| FastLzDecoder.LengthChain | bsd/common/common_zip.c:514-518 | follows the chain of length bytes inside the input and refuses a chain that runs out |
| FastLzDecoder.Distance | bsd/common/common_zip.c:519-530 | the distance bytes, with the far escape, mean what the format says, and a far distance that runs out is refused |
| FastLzDecoder.Decompress1 | bsd/common/common_zip.c:353-390 | on any bytes: stops, stays inside input and output, returns at most maxout, and gives the recursive decoding or 0 when that refuses |
| FastLzDecoder.PastAgrees | bsd/common/common_zip.c:513-530 | a byte behind the stream takes no part in the result of a stream whose decoding does not ask for it |
| FastLzDecoder.Decompress2 | bsd/common/common_zip.c:499-550 | the same at level 2; where the decoding asks for one byte behind the stream, which must then be in memory, the result is that of the decoding with that byte |
| FastLzDecoder.Decompress | bsd/common/common_zip.c:570-579 | the dispatching decoder, with 0 for an unknown level |
| FastLzDecoder.Level1StaysInside | bsd/common/common_zip.c:366-384 | at level 1 no byte string makes the decoder read behind its input |
| FastLzDecoder.OverreadExactly | bsd/common/common_zip.c:513-530 | level 2 asks for a byte behind the stream exactly when the walk over the opcodes that can be executed ends at the end of the stream on the control byte of a short match (32 to 223) |
| FastLzDecoder.SafeLastByte | bsd/common/common_zip.c:513-530 | level 2 stays inside on every stream with a given last byte, whatever the capacity, exactly when that byte is not in 32 to 223 |
| FastLzDecoder.Level2Overreads | bsd/common/common_zip.c:513-530 | for each of these last bytes, three bytes on which level 2 reads behind its input |
| FastLzCompressor.Literals | bsd/common/common_zip.c:222-269 | the literal runs stand for exactly the bytes given and take one byte more per started 32 |
| FastLzCompressor.Match1 | bsd/common/common_zip.c:271-289 | the parts of a long match together stand for the copy of len + 2 bytes, in at most len + 1 bytes |
| FastLzCompressor.Match2 | bsd/common/common_zip.c:392-423 | the same at level 2, where a far match must be at least five bytes long to save one |
| FastLzCompressor.Cmp | bsd/common/common_zip.c:180-185 | the length returned: the bytes before the last one compared agree, and the last one differs unless the bound was reached |
| FastLzCompressor.FindMatch | bsd/common/common_zip.c:313-326 | a candidate from the hash table is taken only if it is earlier, near enough and agrees in three bytes; and none is missed: among the positions passed over, three bytes that stand a second time near enough have others of the same bucket in between |
| FastLzCompressor.MatchExtends | bsd/common/common_zip.c:332-337 | where the input agrees with itself at a distance, copying back from there continues it |
| FastLzCompressor.CompressLoop1 | bsd/common/common_zip.c:291-351 | what has been written always encodes what has been consumed, and the output is at most length + length / 32 + 1 long |
| FastLzCompressor.CompressLoop2 | bsd/common/common_zip.c:425-491 | the same at level 2, where the bound rests on the five-byte test for far matches |
| FastLzCompressor.TaggedDecodes | bsd/common/common_zip.c:493-494 | what the loops leave, tagged or not, is decoded to the input for every sufficient capacity and refused for every other, and no byte behind it is asked for |
| FastLzCompressor.Compress1 | bsd/common/common_zip.c:291-351 | level-1 output of a non-empty input decompresses to it, within the expansion bound |
| FastLzCompressor.Compress2 | bsd/common/common_zip.c:425-497 | level-2 output of a non-empty input decompresses to it, within the expansion bound |
| FastLzCompressor.Compress | bsd/common/common_zip.c:552-558 | decompressing what was compressed gives back every non-empty input; the tag tells on which side of 65536 bytes it was; the output has length + ceil(length / 32) bytes where no three bytes in a row occur a second time, and at most length / 64 + 32 where all bytes but the first are the same |
| FastLzCompressor.CompressLevel | bsd/common/common_zip.c:581-586 | the same for a level that is asked for, and 0 for an unknown one |
| MatrixAlgebra.MulAssoc | DynamicTrace/common/matrix.c:90-123 | the matrix product is associative |
| MatrixAlgebra.LeftInverseOfUpper | DynamicTrace/common/matrix.c:308-327 | an upper triangular matrix with a left inverse has no zero on its diagonal |
| MatrixAlgebra.DiagonalInverts | DynamicTrace/common/matrix.c:531-546 | inverting the diagonal inverts a diagonal matrix on both sides |
| Elementary.OppositeUndoes | DynamicTrace/common/matrix.c:210-229 | the operation with the opposite scale undoes the recorded one, subtraction or exchange, on rows and on columns |
| Elementary.OperationAt | DynamicTrace/common/matrix.c:156-187 | what the recorded operation does to every entry, on rows and on columns |
| Elementary.RowOfProduct | DynamicTrace/common/matrix.c:156-187 | a row operation on a product is the operation on its left factor |
| Elementary.ColumnOfProduct | DynamicTrace/common/matrix.c:156-187 | a column operation on a product is the operation on its right factor |
| Elementary.ForwardBackward | DynamicTrace/common/matrix.c:189-229 | the two transform matrices that replaying and undoing a list on the unit matrix give are inverse to each other |
| Elementary.RowReplayIsProduct | DynamicTrace/common/matrix.c:189-229 | replaying row operations multiplies from the left by the transform matrix, and the other transform matrix takes it back |
| Elementary.ColumnReplayIsProduct | DynamicTrace/common/matrix.c:189-229 | replaying column operations multiplies from the right, and back |
| Determinants.DetLinear | DynamicTrace/common/matrix.c:156-187 | the determinant, expanded along the first column, is linear in every row |
| Determinants.DetExchange | DynamicTrace/common/matrix.c:156-187 | exchanging two rows changes its sign |
| Determinants.DetSubRow | DynamicTrace/common/matrix.c:156-187 | subtracting a multiple of another row leaves it as it is |
| Determinants.DetRow | DynamicTrace/common/matrix.c:156-187 | what a recorded row operation does to it |
| Determinants.DetUpper | DynamicTrace/common/matrix.c:708-724 | for an upper triangular matrix it is the product of the diagonal |
| Determinants.DetTwo | DynamicTrace/common/matrix.c:708-724 | for order 2 it is the difference of the two products |
| MatrixClass.Multiply | DynamicTrace/common/matrix.c:90-123 | the product of two matrices of the same order, and nothing for different orders |
| MatrixClass.ElementaryTransform | DynamicTrace/common/matrix.c:156-187 | performs the recorded operation in place |
| Elimination.RowStep | DynamicTrace/common/matrix.c:242-245 | the recorded operation makes the next entry of the column zero and keeps the zeros made before |
| Elimination.ExchangeStep | DynamicTrace/common/matrix.c:246-255 | the exchange keeps the finished columns and brings the entry found up into the pivot |
| Elimination.ClearColumn | DynamicTrace/common/matrix.c:239-286 | one column of an elimination: the matrix left, whether its rows were exchanged, and that an operation was recorded exactly when there was an entry to eliminate with |
| Elimination.ClearedDone | DynamicTrace/common/matrix.c:239-286 | what that leaves: the column is finished, or it is to be tried again with a pivot that is no longer zero; the earlier columns and pivots are kept |
| Elimination.ClearedFinal | DynamicTrace/common/matrix.c:239-286 | the turn negates the determinant exactly when it exchanges rows |
| Elimination.Triangularise | DynamicTrace/common/matrix.c:238-287 | stops for every square matrix, in spite of the column being tried again, with an upper triangular matrix and the operations that lead to it, of which there are none exactly when every column but the last is zero from the diagonal down; its determinant is that of the matrix, negated once for every exchange |
| Elimination.ColumnStep | DynamicTrace/common/matrix.c:467-470 | the recorded operation makes the next entry of the row zero, keeps the matrix upper triangular and its diagonal as it was |
| Elimination.Diagonalise | DynamicTrace/common/matrix.c:459-520 | stops for every upper triangular matrix, keeps the diagonal, gives a diagonal matrix where that has no zero, and records no operation exactly when all pivots but perhaps the last are zero |
| Elimination.UpperTriangularise | DynamicTrace/common/matrix.c:230-294 | for every square matrix, source = transform matrix * upper triangular matrix, and the transform matrix is invertible; the determinants agree but for the sign of the exchanges |
| Elimination.UpperForInverse | DynamicTrace/common/matrix.c:296-379 | for every square matrix T A = U with T invertible; no operation is recorded exactly when every column of A but the last is zero from the diagonal down |
| Elimination.DiagonalForInverse | DynamicTrace/common/matrix.c:446-529 | for every upper triangular matrix U S = D with S invertible and the same diagonal, D diagonal where that has no zero |
| Elimination.InvertDiagonal | DynamicTrace/common/matrix.c:531-546 | the diagonal matrix of the reciprocals; it divides by zero exactly when the diagonal has a zero |
| Elimination.InverseFromParts | DynamicTrace/common/matrix.c:560-572 | S D' T is a two-sided inverse of A when T A = U and U S = D |
| Elimination.InvertibleGivesPivots | DynamicTrace/common/matrix.c:308-327 | elimination of an invertible matrix leaves no zero pivot |
| Elimination.PivotsGiveInvertible | DynamicTrace/common/matrix.c:459-520 | an upper triangular matrix without zero pivots is invertible |
| Elimination.TransformKeepsInvertible | DynamicTrace/common/matrix.c:560-572 | a square matrix is invertible exactly when its triangular form has no zero pivot |
| Elimination.Inverse | DynamicTrace/common/matrix.c:560-572 | for every square matrix: the code follows the head of an empty list exactly when every column but the last is zero from the diagonal down, and otherwise divides by zero exactly when the matrix is not invertible; in all other cases the result is a two-sided inverse |
| Elimination.UnpivotedSingular | DynamicTrace/common/matrix.c:560-572 | from order 2 on the matrices of the first kind are not invertible |
| Elimination.BothFailuresHappen | DynamicTrace/common/matrix.c:560-572 | a singular matrix of order 2 of either kind |
| Elimination.Determinant | DynamicTrace/common/matrix.c:708-724 | the result is the determinant, negated when the elimination exchanges rows an odd number of times, so that it is right exactly when that number is even or the matrix is singular; it is nonzero exactly when the matrix is invertible |
| Elimination.SwapsOfTwo | DynamicTrace/common/matrix.c:230-294 | for order 2 there is an exchange exactly when the first row starts with zero and the second does not |
| Elimination.WrongSign | DynamicTrace/common/matrix.c:708-724 | a matrix of order 2 whose determinant is -1 while the result is 1 |
| Arena.ChainIsLinked | DynamicTrace/common/matrix.c:11-17 | the linked nodes are the recorded sequence of matrices, each node once |
| Arena.MemoryList.Apply | DynamicTrace/common/matrix.c:11-17 | a new matrix at the front of the list |
| Arena.MemoryList.Release | DynamicTrace/common/matrix.c:19-41 | keeps the min(num, length) newest matrices in order and frees every other one, in list order; the run recorded in the list goes on accordingly |
| Arena.MemoryList.Separate | DynamicTrace/common/matrix.c:11-41 | at any time the live matrices of a list are pairwise distinct and none of them has been freed |
| Arena.Conservation | DynamicTrace/common/matrix.c:11-41 | over every run of allocations and releases, which every list records, what has been freed and what lives are together exactly what was allocated |
| Arena.LiveIsNotFreed | DynamicTrace/common/matrix.c:11-41 | so nothing is freed twice and nothing that lives has been freed |
| InertialFilter.Initialise | DynamicTrace/InertialMeasurement.c:126-187 | after the initialisation exactly the eight backed-up matrices live |
| InertialFilter.Filter.constructor | DynamicTrace/InertialMeasurement.c:126-187 | the two biases are among them, distinct and not freed |
| InertialFilter.Filter.AddSub | DynamicTrace/common/matrix.c:75-88 | reads only live matrices and gives the difference of the scaled ones as a new one, or nothing where the sizes differ |
| InertialFilter.Filter.KeepBiases | DynamicTrace/InertialMeasurement.c:375-377 | the copied biases, with their values, are all that is left: two distinct matrices that have not been freed |
| InertialFilter.Filter.Step | DynamicTrace/InertialMeasurement.c:190-205 | one step reads only live matrices, smooths the rate of turn, and leaves exactly the two biases alive, distinct and not freed |
| InertialFilter.Filter.Run | DynamicTrace/InertialMeasurement.c:190-379 | after any number of steps, at least one, the list holds exactly the two biases with their first values, distinct and not freed |
| InertialFilter.RadiusIs | DynamicTrace/InertialMeasurement.c:372-374 | radius times rate of turn is two metres a second to the other side, up to fifty metres; beyond that the radius is 1000 |
| RingQueue.StepKeepsInv | include/itc.h:63-136 | every read, write and clear keeps positions inside the queue, the queue inside its capacity, the readers' order and the history |
| RingQueue.AlwaysInv | include/itc.h:63-136 | in every interleaving: positions lie between -1 and the queue's size, which stays within its capacity; each reader gets items in write order and never twice; the released items are exactly a prefix of the written ones and the queue holds the rest |
| RingQueue.LastStep | include/itc.h:63-136 | what the last operation of any run has done: a write has put its item in front, a read has given one item exactly when there was one, clearing has left queue and readers empty |
| RingQueue.ReadGivesNext | include/itc.h:86-87 | a reader is given the item whose turn it is |
| RingQueue.ReleasedCount | include/itc.h:101-110 | without Clear the queue holds as many items as were written, up to its capacity |
| RingQueue.MissedMeansLate | include/itc.h:101-113 | without Clear an item passed over unread is more than the capacity behind the newest one |
| RingQueue.ReadersIndependent | include/itc.h:63-113 | what a reader has been given and where it stands is as if the other readers had never read |
| RingQueue.TRWRingQueue.Read | include/itc.h:63-90 | gives the reader's next item to its callback and returns what that does, or the time-out code exactly when there is none, and moves only that reader |
| RingQueue.TRWRingQueue.Write | include/itc.h:94-117 | puts the item in front, releases the oldest exactly when full, and moves every reader accordingly |
| RingQueue.TRWRingQueue.Clear | include/itc.h:120-136 | releases all queued items, oldest first, counts the failures, and leaves all readers empty |
| RingQueue.FailuresAre | include/itc.h:128 | the failures counted are the places for which the callback gave a negative result |
| Upgrade.AlwaysQueueInv | upgrade/upgrade.cpp:476-530 | in every run, also where the saver lags, the queue holds the slots of the latest frames |
| Upgrade.FilledSlotNotQueued | upgrade/upgrade.cpp:476-530 | in every run, however far the saver lags, the slot being filled is not queued, and what the saver takes during the filling is another slot |
| Upgrade.RunKeepsInv | upgrade/upgrade.cpp:476-546 | while the saver keeps pace every slot not yet saved still holds its frame, slots are taken in order, and the file holds what the frames saved so far give |
| Upgrade.SavedIsOriginal | upgrade/upgrade.cpp:532-540 | the saved bytes are the original file exactly when the needed number of frames was saved, or more and the size is a multiple of the payload |
| Upgrade.SizeReadBack | upgrade/upgrade.cpp:482-486 | the size that the sender has put into bytes 14 to 21, least significant first, is read back |
| Upgrade.FileReassembled | upgrade/upgrade.cpp:476-546 | in every interleaving in which the saver keeps pace the file is that of the sender, whose frames carry its size and its bytes, exactly when the needed number of frames has been saved, or more and the size is a multiple of 102400 |
| Upgrade.PacedRun | upgrade/upgrade.cpp:476-546 | every number of frames can be saved in a run that keeps pace |
| Upgrade.FileArrives | upgrade/upgrade.cpp:476-546 | so for a file of any size there is a run at whose end it has arrived |
| Upgrade.FrameTooMany | upgrade/upgrade.cpp:532-540 | for a size that is no multiple of the payload there is a run that saves one frame too many and ends with a wrong file |
| Upgrade.Receiver.FillSlot | upgrade/upgrade.cpp:476-490 | the capture thread's step on a slot |
| Upgrade.Receiver.QueueSlot | upgrade/upgrade.cpp:494-497 | the capture thread queues the slot and counts it |
| Upgrade.Receiver.TakeSlot | upgrade/upgrade.cpp:521-530 | the saving thread gets the next slot number |
| Upgrade.Receiver.SaveSlot | upgrade/upgrade.cpp:532-540 | the saving thread appends the whole payload or what the file still lacks |
| Paint.MinorNearest | bsd/common/paint.c:65-107 | after i major steps the number of minor steps is the one nearest to the ideal line |
| Paint.NearestUnique | bsd/common/paint.c:65-107 | there is only one nearest number of minor steps |
| Paint.HalfPixel | bsd/common/paint.c:65-107 | 2 abs(i dy - k dx) <= dx after every step: never more than half a pixel off |
| Paint.NearIdealLine | bsd/common/paint.c:65-107 | in coordinates: every point of the walk is at most half a pixel off the line through the two end points |
| Paint.AtNext | bsd/common/paint.c:89-107 | one step moves one pixel along the major axis and, exactly when the error is positive, one along the minor axis |
| Paint.WalkEnds | bsd/common/paint.c:71-109 | the walk leads from the start point exactly to the end point |
| Paint.EndNotStamped | bsd/common/paint.c:71-109 | the points stamped for a line are all different, begin with its start point, and do not include its end point |
| Paint.WalkIsConnected | bsd/common/paint.c:89-107 | consecutive points are neighbours |
| Paint.Advance | bsd/common/paint.c:89-107 | leads to the next point of the walk; its loop moves along the minor axis once when the error is positive and not at all otherwise |
| Paint.DrawLine | bsd/common/paint.c:30-113 | changes exactly the pixels on the canvas that lie in the stamps of the walk's points, for any stamp height |
| Paint.LinePixels | bsd/common/paint.c:73-86 | which pixels those are, in coordinates: from half the stick to the left of some point of the walk to less than half to its right, and from its row downwards |
| Paint.DrawDottedLine | bsd/common/paint.c:125-211 | the same for the points that are not in a gap |
| Paint.DottedPixels | bsd/common/paint.c:166-205 | the same in coordinates, for the points whose index modulo 40 is over 20 |
| Paint.DottedIsPart | bsd/common/paint.c:166-205 | the dotted line paints a part of what the solid line paints |
| Paint.DrawPolyline | DynamicTrace/common/paint.c:31-39 | changes exactly the pixels on the canvas in the stamps of all its lines |
| Paint.PolylinePixels | DynamicTrace/common/paint.c:31-39 | the same in coordinates, for the points of all lines |
| Paint.PolylineConnected | bsd/common/paint.c:245-253 | the points stamped for a polyline form one chain of neighbours, corners included, from its first point on |
| AngleAverage.ClassIsNearest | dmm/dmm.cpp:1094-1105 | the class is the nearest multiple of ten, halves away from zero, and is in the table exactly for angles up to 74 |
| AngleAverage.CountClasses | dmm/dmm.cpp:1092-1106 | every class holds the number of its samples |
| AngleAverage.SortClasses | dmm/dmm.cpp:1109-1120 | the same entries, descending by count, and in the order of the angles where counts are equal |
| AngleAverage.SortedIsRanking | dmm/dmm.cpp:1109-1120 | what the sort leaves ranks all classes, each once |
| AngleAverage.RankingUnique | dmm/dmm.cpp:1109-1120 | there is only one such ranking |
| AngleAverage.UsedCount | dmm/dmm.cpp:1124-1147 | exactly thirty samples are averaged, or all in range when those are fewer |
| AngleAverage.FrequentFirst | dmm/dmm.cpp:1124-1147 | a sample is used only if all samples of every class are that has more, or as many and the smaller angle |
| AngleAverage.EarliestUsed | dmm/dmm.cpp:1124-1147 | of every class exactly the samples before some place are used |
| AngleAverage.MeanInBounds | dmm/dmm.cpp:1149-1154 | the result lies between any bounds on the samples in range, and is -1000 exactly when there is none |
| AngleAverage.MeanTruncates | dmm/dmm.cpp:1149-1154 | the mean is rounded towards zero, and is -1000 when there is nothing to average |
| AngleAverage.CalcAnglesAverage | dmm/dmm.cpp:1076-1155 | the truncated mean of the first thirty samples in order of rank |
| AlarmTimer.StepKeepsInv | dmm/dmm.cpp:2210-2535 | one turn of the loop, cut short or not, keeps what is still to wait and what has passed together at least the span of the last arming |
| AlarmTimer.Cooldown | dmm/dmm.cpp:2210-2535 | over every run with interval changes, GPS failures, overspeed alarms held back or not, and back-off: an alarm of a simple type or of overspeed comes no sooner after the last arming of its timer than the time armed |
| AlarmTimer.AlarmRate | dmm/dmm.cpp:2210-2535 | with an unchanged interval and no back-off, n further alarms take at least n intervals |
| AlarmTimer.SwitchExact | dmm/dmm.cpp:2210-2535 | in every run, interval changes included, in which the type is not switched off and no turn is cut short before it, its detection is on exactly when the span of its last arming, by an alarm or by a change, has passed |
| AlarmTimer.NegativeIsOff | dmm/dmm.cpp:2228-2531 | a negative interval switches the detection off |
| AlarmTimer.ReportExactly | dmm/dmm.cpp:2764-2949 | after any run, an alarm reported in a turn that is not cut short is raised and its timer set, with the three, ten and thirty minutes of the back-off, exactly when the GPS result, the working speed and the customer allow it; all else is as without the report |
| AlarmTimer.QuietExactly | dmm/dmm.cpp:2766-2773 | after any run, when a quiet turn ends a series about a missing driver and what it then does |
| AlarmTimer.Detector.PassTimer | dmm/dmm.cpp:2228-2531 | one timer's part of a turn, for all types but the two of fatigue |
| AlarmTimer.Detector.WalkTimers | dmm/dmm.cpp:2227-2535 | all timers up to the first overspeed alarm that is due |
| AlarmTimer.Detector.SubmitAlarm | dmm/dmm.cpp:2764-2949 | arms the timer of the alarm raised, with the back-off for repeated alarms, unless the GPS result, the working speed and the customer have it held back |
| AlarmTimer.Detector.EndSeries | dmm/dmm.cpp:2766-2773 | a face in a quiet picture ends a series of alarms about a missing driver |
| AlarmTimer.Detector.LoopTurn | dmm/dmm.cpp:2178-2950 | one turn of the loop |
| AlarmTimer.ClashExactly | dmm/dmm.cpp:2484-2826 | too fast and held back at once means a GPS fix, a speed between the two, and a customer other than VUE; whether there is such a speed can be told from the settings |
| AlarmTimer.SilenceExactly | dmm/dmm.cpp:2479-2511 | an overspeed alarm that the working speed holds back leaves a time that nothing counts down; when this begins, in terms of the speed, the limit and the working speed, and when it ends, both ways: it ends only with a change of the interval |
| AlarmTimer.StaysSilent | dmm/dmm.cpp:2479-2511 | from then on no overspeed alarm is raised as long as its interval is left alone |
| AlarmTimer.NeverSilent | dmm/dmm.cpp:2479-2826 | no run falls silent whose settings let no speed be above the limit and below the working speed |
| AlarmTimer.SilencedAtOnce | dmm/dmm.cpp:2781-2826 | any speed above the limit and below the working speed brings it about in one turn |
| AlarmTimer.SilencedAt25 | dmm/dmm.cpp:2781-2826 | for instance 25 with a limit of 20 and a working speed of 30 |
| AlarmTimer.SilenceIff | dmm/dmm.cpp:2479-2826 | under given speed settings some run falls silent exactly when the working speed is positive and more than one above the limit and the customer is not VUE |
| AlarmTimer.RunDueExactly | dmm/dmm.cpp:2479-2511 | in every run under other settings, interval changes included, a turn raises the overspeed alarm exactly when the vehicle is too fast and the span of the last arming had passed in the turn before |
| PanelImage.ImgMemcopy | bsd/bsd.cpp:73-95 | fails exactly when the insert is negative or the image does not fit, and then changes nothing; else the source stands at the insert and every other byte is as it was |
| PanelImage.PastedPixel | bsd/bsd.cpp:85-93 | where every byte of the source then stands, in numbers |
| PanelImage.LeftOf | bsd/bsd.cpp:665-690 | the panels do not overlap |
| PanelImage.ComposedNext | bsd/bsd.cpp:661-691 | pasting a panel shows it, leaves the earlier ones showing, and keeps the rest |
| PanelImage.ChannelsFit | bsd/bsd.h:7-37 | with the sizes of the three channels the five panels fit side by side and end at the bitmap's last row |
| PanelImage.UpdatePanel | bsd/bsd.cpp:661-691 | what is pasted is the original image when the state is true, decompressed, and blank otherwise |
| PanelImage.UpdateChannel | bsd/bsd.cpp:650-693 | panel j shows original j exactly when state j is true and is blank otherwise; every other byte of the bitmap is unchanged |
| PanelImage.UpdateImages | bsd/bsd.cpp:644-696 | the same for every channel |
| PanelImage.PanelPixel | bsd/bsd.cpp:661-691 | every byte of every pixel of the five panels: that of the original image, or zero |
| PanelImage.OtherPixel | bsd/bsd.cpp:661-691 | every other pixel of the bitmap is as it was |
| PanelImage.PackPanel | bsd/bsd.cpp:346-352 | the packed panel decompresses to the image; it is longer than the image where no three bytes in a row occur a second time and for every image of up to 16 bytes, and has at most length / 64 + 32 bytes where all but the first are the same |
| GuiZoom.ColumnIsExact | adas/adas.cpp:287-304 | the fixed-point column is floor(x S / D) while x D < 65536, never less, and at most one more for x below 65536 |
| GuiZoom.SameSize | adas/adas.cpp:287-304 | equal sizes map every column to itself |
| GuiZoom.InsideExactly | adas/adas.cpp:287-304 | the condition on the two sizes under which no column lies beyond the source, both ways |
| GuiZoom.InsideWhen | adas/adas.cpp:287-304 | D (D - 1) < 65536 S is enough for it |
| GuiZoom.OneToManyIsOutside | adas/adas.cpp:287-304 | the condition fails for a bitmap one pixel wide that is drawn 257 pixels wide |
| GuiZoom.Zoom | adas/adas.cpp:275-308 | for all sizes for which the last pixel read is in memory, every target pixel is the source pixel in the fixed-point column and row; nothing is drawn when a size is zero |
| GuiZoom.ZoomedPixel | adas/adas.cpp:292-304 | which source pixel every target pixel shows, in numbers |
| GuiZoom.SameSizeCopies | adas/adas.cpp:275-308 | resizing to the same size copies the bitmap |
| AntiShake.Injective | adas/adas.cpp:355-390 | no old rectangle serves two new ones |
| AntiShake.Determined | adas/adas.cpp:355-390 | the filtered frame is determined by the raw one and the last one |
| AntiShake.NeverDrifts | adas/adas.cpp:344-394 | in every frame of every run a result lies where it was detected, or both corners are nearer to that place than the threshold parts of the detected width and height, in coordinates |
| AntiShake.NearIsTaken | adas/adas.cpp:357-390 | conversely an old rectangle that is that near and not taken yet is taken, or an earlier one |
| AntiShake.WasDetected | adas/adas.cpp:344-394 | every rectangle given out was detected in this frame or an earlier one |
| AntiShake.Filter.FindNear | adas/adas.cpp:361-373 | the first old rectangle within the thresholds |
| AntiShake.Filter.FilterFrame | adas/adas.cpp:344-394 | each result takes the first near old rectangle that is not used up; the results become the old ones |
| AntiShake.Filter.FilterFrames | adas/adas.cpp:344-394 | filtering frame after frame gives such a run |
| MatrixClass.Matrix.Get | DynamicTrace/common/matrix.c:311-317 | the array element is the entry of the matrix |
| MatrixClass.Matrix.Set | DynamicTrace/common/matrix.c:311-317 | writing the array element changes that entry alone |
| MatrixClass.Copy | DynamicTrace/common/matrix.c:67-73 | a new matrix with the same entries |
| MatrixClass.Identity | DynamicTrace/common/matrix.c:139-154 | the unit matrix |
| MatrixClass.Swap | DynamicTrace/common/matrix.c:574-604 | exchanges two rows or two columns and nothing else, or reports a line that does not exist and changes nothing |
| Paint.StampsMember | bsd/common/paint.c:73-86 | a pixel is marked exactly when it lies in the stamp of one of the points |
| Paint.ThinnedMember | bsd/common/paint.c:169-170 | the dotted line stamps exactly the points whose index modulo 40 is over 20 |
| Paint.PaintStamp | bsd/common/paint.c:73-86 | paints exactly the pixels of the stamp that lie on the canvas |
| FastLzFormat.ReadChainInverse | bsd/common/common_zip.c:400-401 | a chain of 255s and a last smaller byte is read back as the length it stands for |
| FastLzFormat.ReadDistance2Inverse | bsd/common/common_zip.c:394-421 | a distance of either kind is read back from its bytes |
| Upgrade.AddSize | upgrade/upgrade.cpp:482-486 | adds the eight-byte size of the header, least significant byte first |
| Upgrade.SaveRest | upgrade/upgrade.cpp:532-540 | the test against the remaining size tells whether a whole payload is still wanted |
| Arena.MemoryList.Length | DynamicTrace/common/matrix.c:42-50 | the number of live matrices |
| AlarmTimer.Detector.constructor | dmm/dmm.cpp:2147-2154 | the timers' first values |
| RingQueue.TRWRingQueue.constructor | include/itc.h:31 | an empty queue, all readers empty |
| GuiZoom.LastIsFurthest | adas/adas.cpp:292-304 | the last target pixel reads furthest into the source |
| GuiZoom.InsideReads | adas/adas.cpp:292-304 | where both sizes meet the condition that pixel lies inside the source |
| AngleAverage.TakeClass | dmm/dmm.cpp:1127-1141 | adds one class's samples up to the thirtieth |
| AntiShake.Filter.TakeOut | adas/adas.cpp:380-385 | removes one old rectangle and keeps the order of the others |
| Elimination.ReplayOnUnit | DynamicTrace/common/matrix.c:189-208 | the transform matrix of a non-empty list |
| Elimination.UnwindOnUnit | DynamicTrace/common/matrix.c:210-229 | the transform matrix of the opposite operations, last one first |
| MatrixClass.Matrix.RowByRow | DynamicTrace/common/matrix.c:311-317 | the elements stand in the array row by row |

## Left out

- FastLzDecoder.Decompress2: a stream that is not followed by any byte in memory is excluded where the decoding asks for one.
- FastLzCompressor.Literals: `flz_finalize` is the same loop as `flz_literals` and has no second model; `flz_copy64` copies eight times as many bytes as it is asked for, of which only those that the write position passes over are modelled.
- FastLzCompressor.FindMatch: what an earlier search has left in the hash table is not told, only that nothing is missed among the positions of one search.
- FastLzCompressor.Compress: requires room for the expansion bound.
- PanelImage.PackPanel: its temporary buffer has the size of the expansion bound, where `fastlz_compress_malloc` allocates only `length` bytes (bsd/common/common_zip.c:560-563); what writing behind that buffer does is not modelled.
- FastLZ sizes and indices are unbounded integers; the 64-bit fast paths and the zlib wrappers are not part of this model.
- MatrixClass.Copy: square matrices only, as all of the matrix model.
- MatrixClass.ElementaryTransform: square matrices only.
- Elimination.UpperTriangularise: square matrices only; taller ones lose recorded operations when the list is linked. The recorded operations are a sequence instead of a linked list.
- Elimination.Inverse: what following a null list head or dividing by zero leads to is not modelled, only when it happens.
- Elimination.Diagonalise: modelled on what its caller gives it, an upper triangular matrix.
- Matrices hold reals: rounding is not modelled. `M_Lowtri_`, `M_max`, `M_find`, `M_setval`, `M_Cut` and the other helpers are left out.
- InertialFilter.Filter.constructor: the values computed during the initialisation are parameters, as are the temporary matrices; the Kalman branch that is not compiled, the angles and the trigonometry are left out.
- InertialFilter.Filter.AddSub: compares the numbers of elements, since the sizes of all its matrices are 3 by 1 here.
- RingQueue.TRWRingQueue.Read: waiting is not modelled; a reader that may wait for ever is taken to go on only when there is an item. `Init` on a queue in use and a queue of capacity zero, on which writing throws, are left out.
- RingQueue.TRWRingQueue.Clear: the callback is given a reference to an item that has already been popped; the model gives it the value.
- Upgrade.RunKeepsInv: for runs in which the saver is quick enough; for the others only the queue's part (`Upgrade.AlwaysQueueInv`) is stated. The capture device, the end-of-transfer timer, read time-outs and the wrap-around of the frame counter are not modelled. One file is transferred.
- Paint.DrawLine: the two copies of the walker differ only in the stamp's height, which is a parameter; the variants that scale the end points first are left out.
- AlarmTimer.Cooldown: for the types whose timers are all alike; that the analyser reports only types that are switched on, and no overspeed, is assumed. It is not stated for a missing driver, whose timer a face in the picture sets anew. The numbering of the types is arbitrary, since the header that fixes it is not part of the repository.
- AlarmTimer.Detector.PassTimer: the two types of fatigue, whose timers depend on each other, count as types that may be raised at any time.
- AlarmTimer.Detector.SubmitAlarm: messages, drawing and sound are left out, and with them the low alarm level that one customer's alarms get below the working speed.
- AlarmTimer.Detector.LoopTurn: the reasons why a turn ends without a report are one input. The clock is an input in milliseconds that does not run back; wrap-around is not modelled.
- AngleAverage.CalcAnglesAverage: the sum is unbounded.
- PanelImage.UpdateImages: requires that the panels fit the bitmap (`PanelImage.ChannelsFit`); loading the images and drawing the text and the region are left out.
- GuiZoom.Zoom: reading behind the source's buffer is excluded; negative sizes and null pointers are left out.
- GuiZoom.SameSize: sizes are unbounded; in the code `s32Width << 16` overflows a 32-bit integer from 32768 on (adas/adas.cpp:287-288).
- AntiShake.Filter.FilterFrame: squares of distances over the reals instead of floating-point roots.
- Sockets, cameras, GPIO, CAN, websockets, JSON dumps, the closed neural-network libraries and the start-up code are left out, as are the copies of the resize and filter code in other programs.
