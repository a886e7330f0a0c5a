# Verified models of the repository's core algorithms

This project models the parts of the repository whose correctness rests on more than one function
at a time, and proves what those parts are for. Dafny's verifier checks all of it:
`dafny verify dfyconfig.toml`.

- **Image processor.** `BlurSpec` says what a box blur is: the mean of a window of edge-clamped
  samples. `BoxSizes` picks the three box radii for a sigma. `BlurFilter` is the running-sum blur on
  flat buffers, row pass, column pass and the exchange of buffers; its row and column passes share
  one line routine, `BlurLine`, with stride 1 or `w`. `BlurBounds` follows the indices of the passes for
  any radius. `Images` holds the image class with negative,
  crop and the 3x3 matrix applied in place, `ImageBlur` the blur filter on an image, `Pipelines`
  filters in sequence, and `Bitmaps` the file reader and writer.
- **Chat service.** `Messages` is the stack-like message, `Envelope` what the server wraps around a
  text and the client takes apart, `Connections` one end of a socket with its posted sends, write
  machine and read machine. `Link` is a state machine over two ends and the bytes between them,
  `Server` the drain-and-broadcast loop, `ServerRuns` a state machine over accepts, closes, arrivals
  and processed messages, `ServerSources` where its log comes from and whom its labels stand for,
  `Client` the client's loop, `Chat` the composition of all of these: the clients' links, the server,
  and the link to a client's screen.
- **Serializer.** `SerialFormat` describes objects, their bytes and what the bytes determine,
  `SerialLayout` where each byte of a serialized object is. `Serializer` writes objects into a buffer
  through an iterator and `Deserializer` reads a primitive back.
- **Heap allocator.** `HeapSpec`, `HeapProofs` and `HeapTheorems` give the allocator's state as
  values and its theorems, `HeapRestore` says when freeing everything restores the heap,
  `HeapFullTable` gives a run after which it does not, and `HeapAllocator` is the class over the two
  chunk tables. `HeapAsWritten` is the unrepaired code with the exact conditions under which its calls
  work, `HeapAsWrittenRuns` the same for every pointer and for whole runs.
- `Bytes`, `Options` and `Vectors` hold what the others share.

Code that changes state is modelled by methods over arrays or over the fields of a class, each of
which is tied by its `ensures` to a function of the old state; the theorems are about those functions.

## How the parts are modelled

- A `double` is a `real`; rounding is not modelled. `sqrt` followed by `floor` is the whole root.
- A completion handler, a posted lambda and one broadcast are each one atomic step. Posted lambdas
  run in the order they were posted. The wire is a sequence of bytes. `Link` allows every
  interleaving of sends, lambdas, partial transfers, completions, failures and closes, of messages whose
  size field is the length of their body, as `<<` and `>>` keep it.
- A message without a body is delivered with the body of an earlier message
  (asio_web_service/connection/include/connection.hpp:113-115), because the reader does not clear it
  and `push(T&&)` copies (asio_web_service/utils/thread_safe_queue.hpp:24-28). The model keeps that;
  `Link.DeliveredFaithfulIff` says exactly when it shows, and `Chat.TextSurvivesLink` why no user sees it.
- `SendToClient` returns true on success and that value is or-ed into `has_disconnected`
  (asio_web_service/server/src/my_server.cpp:20, 37). The model keeps that as well: clearing follows a
  broadcast exactly when it reached someone.
- The header that goes over the wire has two bytes of padding, whose values the model leaves open.
- 32-bit size fields wrap: `SerialFormat.SizeIsLength` is a statement modulo 2^32, and
  `SerialFormat.BufferFitsIff` says when the allocated buffer is long enough.
- The allocator as written departs from its evident intent in five places. `HeapAllocator` is the
  intended algorithm, with these repairs to memory_allocator/heap_allocator.cpp and no others:
  the removal loop moves `chunks[j]` to `chunks[j - 1]` (76-78); the neighbour test compares the end of
  chunk `pos` with the start of chunk `pos + 1` (110); compaction lowers the number of free chunks
  (125-130); the ordering walk runs over the free chunks (149-152); the bound check uses the number of
  live chunks (182). `HeapAsWritten` and `HeapAsWrittenRuns` model the code without them.
  They state when a call still keeps the partition, if and only if a condition that can be checked before
  it: `AllocAsWrittenWorksIff` for an allocation, `FreeAsWrittenKeepsIff` for a free of any pointer, live,
  dead or null, and `InitialRunKeepsIff` for a whole run from the initial heap. They also give the inputs
  on which it is lost.
- Freeing every live chunk restores the initial heap unless the table of free chunks is full, or becomes
  full with the first free (`HeapRestore.FreeingAllRestoresHeapIff`).

## Model

| member | source | states |
|---|---|---|
| BlurSpec.Separable | image_processor/src/blur_filter.cpp:115-119 | for every picture a row pass followed by a column pass is the mean of the two-dimensional edge-clamped window at every pixel |
| BlurSpec.WindowIs | image_processor/src/blur_filter.cpp:50-72 | the sum over a window of radius 0 is the sample itself, each larger radius adds the next sample on either side or the first or last one beyond the ends, and the mean is the sum over 2r + 1 |
| BlurSpec.Slide | image_processor/src/blur_filter.cpp:65-68 | moving a window by one sample adds the clamped sample that enters and takes away the one that leaves |
| BlurSpec.ThreeBoxesRange | image_processor/src/blur_filter.cpp:121-127 | three box passes leave every sample between the bounds that the input samples lie in |
| BlurFilter.PlanSlides | image_processor/src/blur_filter.cpp:50-72 | on a line that the window fits the window sums slide by one entering and one leaving sample, from r + 1 copies of the first sample on, and the means are the sums over the window width |
| BlurFilter.BlurLine | image_processor/src/blur_filter.cpp:50-72 | for any plan of sums that slide that way the three index regimes with one running sum write the plan's means at the positions of the line, row or column, and nothing else |
| BlurFilter.HorBlur | image_processor/src/blur_filter.cpp:44-74 | when the window fits the rows, or there is none, the row pass leaves in the output the row means of the input picture |
| BlurFilter.TotalBlur | image_processor/src/blur_filter.cpp:76-113 | when the window fits the columns, or there is none, the strided pass leaves the column means |
| BlurFilter.BoxBlur | image_processor/src/blur_filter.cpp:115-119 | the two references come back exchanged and the second one holds the two-dimensional box means of what the first one held |
| BlurFilter.FastGaussianBlur | image_processor/src/blur_filter.cpp:121-127 | with r the three radii for sigma, every sample of the output is the two-dimensional mean with radius r[2] over a picture of such means with r[1] over one of such means with r[0] over the input; the two buffers are still the same two, exchanged |
| BlurFilter.GaussianIsMeans | image_processor/src/blur_filter.cpp:121-127 | the same of the function that the blur of whole pictures is stated with |
| BlurBounds.RowPassStaysInsideIff | image_processor/src/blur_filter.cpp:48-73 | every read and write of a row pass, loop by loop, is inside its buffers if and only if there is no row or the window fits the rows |
| BlurBounds.ColumnPassStaysInsideIff | image_processor/src/blur_filter.cpp:80-112 | the same for a column pass and the columns |
| BlurBounds.RadiiFitIffInside | image_processor/src/blur_filter.cpp:115-127 | what the blur requires of sigma and the picture holds if and only if all its passes stay inside their buffers |
| BoxSizes.StdToBox | image_processor/src/blur_filter.cpp:22-42 | the loop fills the first n entries with the radii of the chosen split and leaves the rest |
| BoxSizes.LowerWidthIsLargestOdd | image_processor/src/blur_filter.cpp:26-31 | an odd number is at most the narrower width if and only if its square is at most the square of the ideal width |
| BoxSizes.StdToBoxBound | image_processor/src/blur_filter.cpp:34-41 | for every sigma and n the radii are those of a split at some m in 0..n, their total variance times 12 misses 12 sigma squared by at most 2(w+1), and no other split between the two widths comes closer |
| BoxSizes.BoxRadiiNonNegative | image_processor/src/blur_filter.cpp:39-41 | every radius is non-negative |
| Images.Image.constructor | image_processor/include/image.h:13-15 | the image holds the picture it is given |
| Images.Image.SetPixel | image_processor/include/image.h:21-23 | one pixel changes and no other |
| Images.Image.SetImageHeight | image_processor/src/image.cpp:3-6 | rows are cut off, or empty ones added; lowering the height keeps the picture rectangular |
| Images.Image.SetImageWidth | image_processor/src/image.cpp:8-13 | every row is brought to the width, so the picture is rectangular again |
| Images.NegativeApply | image_processor/src/negative_filter.cpp:13-22 | the loop that overwrites the picture in place leaves 255 minus the old value in blue, green and red of every pixel |
| Images.LastRows | image_processor/src/crop_filter.cpp:27-33 | the copied matrix holds the last rows and first columns |
| Images.CropApply | image_processor/src/crop_filter.cpp:22-43 | crop in place leaves the last rows and the first columns, as many as are asked for and there are, each pixel being the one it was in the old picture |
| Images.NearestPixel | image_processor/src/basic_filter.cpp:28-51 | the nine-way branch reads inside the snapshot and yields the edge-clamped sample, for one-pixel pictures too |
| Images.ApplyForColor | image_processor/src/basic_filter.cpp:54-72 | the double loop computes the weighted sum of the nine edge-clamped neighbours, cut to 0..255 |
| Images.NineTerms | image_processor/src/basic_filter.cpp:60-68 | that sum written out: each of the nine weights times the neighbour it stands over |
| Images.ConvolvedIsFiltered | image_processor/src/basic_filter.cpp:54-78 | that cut in numbers for the pure filter, blue, green and red at every pixel |
| Images.TakeSnapshot | image_processor/src/basic_filter.cpp:7-23 | the three planes copied out hold blue, green and red of every pixel |
| Images.ApplyMatrix | image_processor/src/basic_filter.cpp:4-92 | the in-place filter equals the pure one, for pictures of any size: no updated value is ever read, and each colour of each pixel is 0 where the nine terms sum to less than 0, 255 where to more than 255, and the sum otherwise |
| ImageBlur.LayOut | image_processor/src/blur_filter.cpp:145-164 | the loop with running indices lays each colour out row by row |
| ImageBlur.PutBack | image_processor/src/blur_filter.cpp:170-182 | the loop with running indices puts the cut samples back at the pixels they came from |
| ImageBlur.BlurApply | image_processor/src/blur_filter.cpp:129-190 | whenever its passes stay inside their buffers the filter leaves at every pixel, for blue, green and red, the whole part of the means of means of means with the three radii of the old samples; a picture without rows and columns stays as it is |
| ImageBlur.ColourIsBlurred | image_processor/src/blur_filter.cpp:166-182 | the same of the function on pictures: each byte is at most its Gaussian sample and less than one below it |
| ImageBlur.BlurredFits | image_processor/src/blur_filter.cpp:172-174 | every blurred sample lies in 0..255, so the cast to a byte is defined |
| ImageBlur.BlurKeepsRange | image_processor/src/blur_filter.cpp:129-190 | each colour stays between its least and greatest old value; a flat colour is unchanged |
| Pipelines.Pipeline.AddFilter | image_processor/src/pipeline.cpp:10-12 | the filter joins at the end |
| Pipelines.Pipeline.Apply | image_processor/src/pipeline.cpp:14-18 | applying the filters to one image in place is the composition of what they do to pictures, and keeps the image rectangular |
| Pipelines.ApplyOne | image_processor/src/sharp_filter.cpp:13-16 | each filter does to an image in place what its function does to a picture: the negative, the crop, the nine-term sum cut to bytes, or the three colours blurred |
| Pipelines.PipelinesCompose | image_processor/src/pipeline.cpp:14-18 | two pipelines in a row are the pipeline of both |
| Pipelines.CropTwice | image_processor/src/crop_filter.cpp:22-43 | two crops are one, to the smaller width and height |
| Pipelines.CropThenNegative | image_processor/src/negative_filter.cpp:13-22 | crop and negative commute |
| Pipelines.NegativeTwice | image_processor/src/negative_filter.cpp:13-22 | two negatives cancel |
| Pipelines.CropsAndNegatives | image_processor/src/pipeline.cpp:14-18 | any pipeline of crops and negatives is one crop to the least sizes, then a negative if their number is odd |
| Pipelines.FlatConvolved | image_processor/src/basic_filter.cpp:54-72 | over a flat colour a 3x3 matrix multiplies by the sum of its weights |
| Pipelines.SharpeningKeepsFlat | image_processor/src/sharp_filter.cpp:13-16 | sharpening leaves a flat colour as it is |
| Pipelines.SharpenedIs | image_processor/src/sharp_filter.cpp:13-15 | each sharpened colour is five times the old value less those of the four neighbours, cut to 0..255, an edge pixel standing in for a neighbour that is missing |
| Bitmaps.StrideIsLeast | image_processor/src/bmp_utils.cpp:92 | pixels and padding of a row make the least multiple of four that the pixels fit in |
| Bitmaps.PixelAt | image_processor/src/bmp_utils.cpp:94-102 | pixel (i, j) is at i * stride + 3j, as blue, green, red |
| Bitmaps.RowAtIs | image_processor/src/bmp_utils.cpp:94-102 | i padded rows take i * stride bytes |
| Bitmaps.PaddingIsZero | image_processor/src/bmp_utils.cpp:91-101 | the bytes between the last pixel of a row and the next row are zero |
| Bitmaps.PixelsRoundTrip | image_processor/src/bmp_utils.cpp:51-63 | reading the written pixels gives the matrix back, whatever follows, and they are as many bytes as the padded rows |
| Bitmaps.BmpRoundTrip | image_processor/include/bmp_utils.h:16-22 | the 14-byte file header reads back in all fields |
| Bitmaps.DibRoundTrip | image_processor/include/bmp_utils.h:24-36 | the 40-byte image header reads back in all fields |
| Bitmaps.BmpFields | image_processor/include/bmp_utils.h:16-22 | the offset, width and byte order of every field of the file header |
| Bitmaps.DibFields | image_processor/include/bmp_utils.h:24-36 | the same for the image header |
| Bitmaps.FileRoundTrip | image_processor/src/bmp_utils.cpp:121-123 | both headers and every pixel of a written file read back, whatever the headers were before, and what follows is left |
| Bitmaps.FileFields | image_processor/src/bmp_utils.cpp:81-103 | in a written file: signature at byte 0, size at 2, offset at 10, width at 18, height at 22, bits per pixel at 28, image size at 34, least significant byte first, and blue, green and red of pixel (i, j) from 54 + i * stride + 3j on |
| Bitmaps.PixelFound | image_processor/src/bmp_utils.cpp:55-62 | what is read for each pixel, byte by byte, and zero for each byte that lies behind the end of the file |
| Bitmaps.OverwrittenAt | image_processor/src/bmp_utils.cpp:97 | written bytes take their place, grow the file where they must, and leave every other byte |
| Bitmaps.BmpStream.WriteRow | image_processor/src/bmp_utils.cpp:95-101 | the inner loop and the padding put one padded row at the position |
| Bitmaps.BmpStream.WriteRGBData | image_processor/src/bmp_utils.cpp:89-103 | the loops put exactly the padded rows at the position and leave the rest of the file; a failed stream writes nothing |
| Bitmaps.BmpStream.ReadRow | image_processor/src/bmp_utils.cpp:58-61 | the inner loop fills one row from the bytes there are and skips the padding |
| Bitmaps.BmpStream.ReadRows | image_processor/src/bmp_utils.cpp:57-62 | the loops fill the matrix from the bytes and stop right behind the last row; pixels a short file lacks stay black |
| Bitmaps.BmpStream.ReadRGBData | image_processor/src/bmp_utils.cpp:51-63 | the same for every file, and an exception with an empty matrix for negative dimensions |
| Bitmaps.BmpStream.ReadBmp | image_processor/src/bmp_utils.cpp:65-79 | for every file, short ones and negative dimensions included: a wrong signature is only reported, a wrong number of bits ends the reading, a closed stream is an error; otherwise headers and pixels are those of the file as far as it goes |
| Bitmaps.BmpStream.WriteBmp | image_processor/src/bmp_utils.cpp:105-124 | the headers take over the dimensions and the size fields change modulo 2^32; what the file had behind the pixels stays |
| Bitmaps.WriteThenRead | image_processor/src/bmp_utils.cpp:65-124 | a stream reads back the dimensions and every pixel that another one wrote |
| Bytes.LittleEndianRoundTrip | asio_web_service/utils/message.hpp:38 | a number copied into a message byte by byte reads back |
| Bytes.LittleEndianAt | asio_web_service/utils/message.hpp:38 | byte i is the number divided by 256^i, modulo 256 |
| Messages.HeaderRoundTrip | asio_web_service/utils/message.hpp:19-23 | the header's bytes in memory determine it |
| Messages.HeaderLayout | asio_web_service/utils/message.hpp:19-23 | the kind is the first of its eight bytes and the size the last four, least significant first |
| Messages.Message.Put | asio_web_service/utils/message.hpp:31-43 | the datum goes on top and the size field grows by its length; size == body length is kept |
| Messages.Message.Get | asio_web_service/utils/message.hpp:46-58 | the top bytes come off and the size field is the length that is left |
| Messages.PutThenGet | asio_web_service/utils/message.hpp:31-58 | what was put on top comes back and the message is as before |
| Envelope.LabelFits | asio_web_service/server/src/my_server.cpp:32 | the label of every 32-bit id is non-empty and at most 22 bytes, so its length fits a byte |
| Envelope.LabelInjective | asio_web_service/server/src/my_server.cpp:32 | different ids have different labels |
| Envelope.LabelIs | asio_web_service/server/src/my_server.cpp:32 | the label is SERVER for id 0, and Connection, a space, # and the decimals of the id for any other |
| Envelope.DecimalAt | asio_web_service/server/src/my_server.cpp:32 | the decimals of a number are its digits as characters, most significant first, without a leading zero |
| Envelope.MakeMessageToClient | asio_web_service/server/src/my_server.cpp:43-62 | the repeated pushes build the body, size, sender, sender length, in that order, and a size field equal to the body length |
| Envelope.PopString | asio_web_service/client/src/my_client.cpp:19-24 | bytes popped one by one and reversed are the end of the body in order |
| Envelope.OnTextMessage | asio_web_service/client/src/my_client.cpp:14-37 | the handler takes sender and text out of the back of the body, and how much of the body is left |
| Envelope.UnwrapWrap | asio_web_service/client/src/my_client.cpp:14-37 | for every message and every sender of at most 255 bytes the client recovers the sender and the last header.size bytes of the body, which is all of it when the header is right |
| Envelope.UnwrapSucceedsIff | asio_web_service/client/src/my_client.cpp:14-37 | a sender and a text are shown if and only if the body ends in exactly their envelope |
| Connections.ThreadSafeQueue.Front | asio_web_service/utils/thread_safe_queue.hpp:14-22 | the oldest entry |
| Connections.ThreadSafeQueue.Push | asio_web_service/utils/thread_safe_queue.hpp:30-34 | the entry joins at the end |
| Connections.ThreadSafeQueue.Pop | asio_web_service/utils/thread_safe_queue.hpp:36-45 | the oldest entry leaves; an empty queue stays empty |
| Connections.Connection.SendMessage | asio_web_service/connection/include/connection.hpp:40-58 | a message is accepted exactly when the socket is open, and then posted |
| Connections.Connection.RunPosted | asio_web_service/connection/include/connection.hpp:47-57 | the message joins the queue, and a write starts exactly when the queue was empty |
| Connections.Connection.OnHeaderWritten | asio_web_service/connection/include/connection.hpp:62-84 | header to body, header of an empty message to the next message, or the socket closes |
| Connections.Connection.OnBodyWritten | asio_web_service/connection/include/connection.hpp:86-104 | the message leaves the queue and the next one starts, or the socket closes |
| Connections.Connection.OnHeaderRead | asio_web_service/connection/include/connection.hpp:107-128 | an empty message is handed on with the body as it was and the next header awaited, any other waits for its body; a failure closes the socket, awaits nothing more, and hands nothing on |
| Connections.Connection.OnBodyRead | asio_web_service/connection/include/connection.hpp:130-145 | the message is handed on and the next header awaited; a failure closes the socket, awaits nothing more, and hands nothing on |
| Connections.Connection.AddNewMessage | asio_web_service/connection/include/connection.hpp:147-150 | the income queue gets the message, linked to this connection, and the reader keeps its copy |
| Link.StepKeepsInv | asio_web_service/connection/include/connection.hpp:40-150 | every step of either end keeps the writer's and the reader's invariant, and no handler finds the queue empty |
| Link.RunKeepsInv | asio_web_service/connection/include/connection.hpp:40-150 | hence every run does |
| Link.AtMostOneWrite | asio_web_service/connection/include/connection.hpp:47-104 | in every reachable state at most one write is under way, until a failure exactly when the queue is non-empty, and the wire holds the frames of the messages popped, in order, plus part of the front's frame |
| Link.FailureIsFinal | asio_web_service/connection/include/connection.hpp:78-81 | after a failed write no step writes or accepts anything more |
| Link.FailureStays | asio_web_service/connection/include/connection.hpp:78-103 | nor does any run: the socket stays closed, nothing is under way, wire and log stay as they are |
| Link.ReadFailureStops | asio_web_service/connection/include/connection.hpp:120-142 | a failed read of a header or a body closes the socket and awaits nothing more; no byte is consumed and no message handed on |
| Link.ReadFailureStays | asio_web_service/connection/include/connection.hpp:120-142 | from then on no step of any run consumes a byte or hands on a message |
| Link.ClosedOnlyByFailureOrOwner | asio_web_service/connection/include/connection.hpp:60-145 | in every reachable state an end is open if and only if it neither failed nor was closed by its owner, and the reader waits for bytes if and only if no read failed |
| Link.FifoFraming | asio_web_service/connection/include/connection.hpp:107-150 | in every reachable state the messages handed on are a prefix of those accepted, in order and byte for byte, save for the bodies of empty ones |
| Link.EverythingArrives | asio_web_service/connection/include/connection.hpp:40-150 | nothing is held back: without a failure, once no lambda is waiting, no write under way and no read could complete, every accepted message has been handed on |
| Link.DeliveredFaithfulIff | asio_web_service/connection/include/connection.hpp:113-115 | messages arrive as sent if and only if no empty one follows one with a body |
| Link.EmptyMessageArrivesWithOldBody | asio_web_service/connection/include/connection.hpp:113-115 | a case in which one does |
| Server.MyServer.constructor | asio_web_service/server/include/base_server.hpp:105-106 | no connections, and ids start at 1 |
| Server.MyServer.AddNewConnection | asio_web_service/server/include/base_server.hpp:69-75 | a new connection joins at the end of the list; if its socket is open it has the next id and is being read from |
| Server.MyServer.SendToClient | asio_web_service/server/src/my_server.cpp:30-41 | an open connection is sent the wrapped message and true comes back, a closed one nothing and false |
| Server.MyServer.SendToAllClients | asio_web_service/server/src/my_server.cpp:12-28 | every open connection but the sender accepts the wrapped message once and no other accepts anything; if someone got it exactly the open connections stay in the list, and otherwise the list stays |
| Server.MyServer.ClearDisconnectedClients | asio_web_service/server/include/base_server.hpp:79-99 | exactly the open connections stay, in order, and the number of users follows the list modulo 2^32 |
| Server.StillOpenAppends | asio_web_service/server/include/base_server.hpp:88-99 | clearing goes through the list connection by connection: an open one stays in its place, a closed one goes |
| Server.MyServer.HandleText | asio_web_service/server/include/my_server.hpp:26-31 | the handler of a text message takes a drain one message further |
| Server.MyServer.Update | asio_web_service/server/src/my_server.cpp:3-10 | the queue is worked off in order, one broadcast per message, up to and including the first message without a handler: every connection that was open at the start accepts the wrapped messages of the others before it, in order, a closed one none, and the closed ones leave the list if and only if any message went out |
| ServerRuns.StepKeepsInv | asio_web_service/server/src/my_server.cpp:3-41 | every step keeps the account of who has been sent what |
| ServerRuns.EveryoneHearsTheLog | asio_web_service/server/src/my_server.cpp:3-41 | in every run what a connection was sent is exactly the processed log from its join until its socket closed, without its own messages |
| ServerRuns.ClosedHearsNoMore | asio_web_service/server/src/my_server.cpp:30-41 | once its socket has closed a connection stays closed and is sent nothing more, in any run |
| ServerRuns.SentFromTheLog | asio_web_service/server/src/my_server.cpp:3-41 | message by message: strictly increasing log positions, so none twice, and never its own |
| ServerRuns.SameOrderForAll | asio_web_service/server/src/my_server.cpp:12-28 | messages that two connections both get are the same and reach them in the same order |
| ServerRuns.ProcessIsBroadcast | asio_web_service/server/src/my_server.cpp:12-28 | a step of the state machine does to the server's list what the class's broadcast does |
| ServerRuns.DrainIsProcessing | asio_web_service/server/src/my_server.cpp:3-10 | processing messages until the queue is empty or one has no handler does to the list what one call of Update does, and stops early if and only if the queue holds such a message |
| ServerSources.LogFromArrivals | asio_web_service/server/src/my_server.cpp:3-10 | in every run a message of the log is the next one that arrived from its sender, with its sender's id |
| ServerSources.NothingLost | asio_web_service/server/src/my_server.cpp:3-10 | in every run what arrived, from all connections together and in order, is the log, then the one message that ended the drain if any has, then what still waits |
| ServerSources.LabelsTellApart | asio_web_service/server/include/base_server.hpp:69-75 | in every run an open connection goes by the number it was accepted under, from 1 on, modulo 2^32; among fewer than 2^32 - 1 connections the labels of any two open ones differ, and from the server's |
| Client.MyClient.Update | asio_web_service/client/src/my_client.cpp:3-12 | the queue is worked off in order: each text message up to the first message without a handler adds its sender and text as the next line, and that message ends the drain |
| Client.ShownAt | asio_web_service/client/src/my_client.cpp:3-12 | one line per text message up to the first message of another type, in order |
| Chat.TextSurvivesLink | asio_web_service/connection/include/connection.hpp:107-150 | over the link the text of every message survives, also of those that arrive with an old body |
| Chat.WrappedIsConsistent | asio_web_service/server/src/my_server.cpp:43-62 | what the server sends on is a text message with the size its header says, so a link accepts it |
| Chat.EnvelopesArriveIntact | asio_web_service/server/src/my_server.cpp:43-62 | envelopes are never empty, so the link delivers any sequence of wrapped messages as sent |
| Chat.ArrivedWasSent | asio_web_service/connection/include/connection.hpp:107-150 | the n-th message that arrives on a link has the body of the n-th message sent as its text |
| Chat.ScreenShowsTheLog | asio_web_service/client/src/my_client.cpp:14-37 | for every run of the server and of the link to client k, of messages that fit the envelope's 32-bit size, the i-th one it receives unwraps to label and text of the i-th message of the log that k hears |
| Chat.ScreenIsTheLog | asio_web_service/client/src/my_client.cpp:3-37 | line i on the client's screen is that label and text |
| Chat.ScreenShowsWhatWasSent | asio_web_service/client/src/my_client.cpp:3-37 | for every run of the server, of the links from all clients and of the link to client k, of bodies below 2^32 - 27 bytes: line i on k's screen is the label of another connection and the body its client sent, each client's in the order of sending |
| Bytes.BigEndianRoundTrip | serialization/include/core.h:63-73 | k encoded bytes decode to the number modulo 256^k, for negative numbers as well |
| Bytes.BigEndianAt | serialization/include/core.h:26-30 | byte i of k is the number shifted right by the bytes behind it |
| Bytes.FromBigEndianRoundTrip | serialization/include/core.h:63-73 | encoding what bytes decode to gives those bytes |
| SerialFormat.AddedIsBuilt | serialization/src/my_struct.cpp:15-31 | adding any object of the four kinds keeps the size and kind accounting of the whole tree |
| SerialFormat.NewIsBuilt | serialization/src/object.cpp:19-22 | what the constructors make satisfies that accounting |
| SerialFormat.SizeIsLength | serialization/src/my_struct.cpp:10-56 | for every tree the size field is the number of bytes that serialize writes, modulo 2^32 |
| SerialFormat.BufferFitsIff | serialization/src/core.cpp:7-11 | the allocated buffer has the length of what is written if and only if that is below 2^32 |
| SerialFormat.UniquelyDecodable | serialization/src/my_struct.cpp:33-56 | bytes that start with a serialized object determine the object and where it ends, for all nested objects and all tails |
| SerialLayout.SerIsLaidOut | serialization/src/my_struct.cpp:33-56 | where every byte is: size, name length, name and wrapper; behind the base the type, the length of an array or string, and the data; or the primitives, arrays, strings and structs of a struct in that order, each an eight-byte number of entries and every entry at the sum of the lengths of those before it |
| SerialFormat.AddAllIsBuilt | serialization/src/my_struct.cpp:15-31 | every sequence of insertions keeps the accounting |
| SerialFormat.SameKindsSameStruct | serialization/src/my_struct.cpp:15-54 | insertion orders that agree kind by kind give the same object, size and bytes |
| SerialFormat.SameBytesSameKinds | serialization/src/my_struct.cpp:15-54 | conversely the same bytes mean the same insertions kind by kind |
| Serializer.EncodeInt | serialization/include/core.h:25-30 | the shifting loop writes the number big-endian, advances by its width and changes no other byte |
| Serializer.EncodeBytes | serialization/include/core.h:53-58 | the bytes of a string, in place |
| Serializer.EncodeVector | serialization/include/core.h:45-50 | each element in turn, in place |
| Serializer.EncodeAllAt | serialization/include/core.h:45-50 | element i of a vector of k-byte numbers is at k * i, big-endian |
| Serializer.CreatePrimitive | serialization/include/primitive.h:20-32 | the new primitive holds the value's bytes and the right size |
| Serializer.CreateArray | serialization/include/array.h:19-31 | the new array holds its elements' bytes, their number and the right size |
| Serializer.CreateString | serialization/include/my_string.h:18-33 | the new string holds its bytes, their number and the right size |
| Serializer.StructObject.constructor | serialization/src/my_struct.cpp:10-13 | an empty struct of the right size |
| Serializer.StructObject.AddObject | serialization/src/my_struct.cpp:15-31 | the object joins the list its wrapper names and the size grows; the accounting is kept |
| Serializer.SerializeBase | serialization/src/object.cpp:24-29 | size, name length, name, wrapper, in place |
| Serializer.SerializeTail | serialization/src/array.cpp:18-23 | type, length and data of an array or string; type and data of a primitive |
| Serializer.SerializeSame | serialization/src/my_struct.cpp:37-42 | the number of entries and every entry, in place |
| Serializer.SerializeLists | serialization/src/my_struct.cpp:44-54 | the four lists in their order |
| Serializer.Serialize | serialization/src/my_struct.cpp:33-56 | for every tree the iterator advances by the object's bytes, which are laid out from there on as `SerialLayout.LaidOut` says, and no byte outside its range changes |
| Serializer.SerializeAll | serialization/src/core.cpp:7-14 | a buffer of size_ bytes is filled completely with the object's bytes, laid out that way |
| Deserializer.DecodeInt | serialization/include/core.h:62-73 | up to four shifted bytes or-ed together are the big-endian number |
| Deserializer.DecodeString | serialization/include/core.h:97-108 | after going back over the length the iterator ends right behind the name |
| Deserializer.DecodeVector | serialization/include/core.h:89-95 | the vector is filled from the buffer |
| Deserializer.TypeSizes | serialization/src/core.cpp:30-61 | one byte for types 1, 5 and 9, two for 2 and 6, four for 3, 7 and 10, eight for 4, 8 and 11, none for any other number |
| Deserializer.ParsedIff | serialization/include/primitive.h:39-54 | bytes are parsed exactly when a primitive lies at their beginning, field by field, and it is the one parsed |
| Deserializer.Deserialize | serialization/include/primitive.h:39-54 | the steps read the primitive that is at the start of the buffer, and where it ends |
| Deserializer.PrimitiveRoundTripIff | serialization/include/primitive.h:39-54 | a primitive comes back in all fields with exactly its bytes consumed if and only if its name is shorter than 2^32 and its data as wide as its type says |
| Deserializer.ParsedIsSerialized | serialization/src/primitive.cpp:16-20 | what was read from bytes is written as those bytes |
| Deserializer.ValueComesBack | serialization/include/primitive.h:20-54 | for every type and value, create, serialize and deserialize return the value modulo the width of the type |
| HeapProofs.AllocKeepsInv | memory_allocator/heap_allocator.cpp:58-90 | every allocation keeps the partition, the order, the coalescing and the count of free bytes |
| HeapProofs.FreeKeepsInv | memory_allocator/heap_allocator.cpp:167-195 | so does every free, of whatever pointer |
| HeapTheorems.Run | memory_allocator/heap_allocator.cpp:58-195 | a run of calls from any state that keeps the invariant keeps it throughout |
| HeapTheorems.EveryRunTiles | memory_allocator/heap_allocator.cpp:58-195 | after any calls live and free chunks are non-empty, sorted, disjoint and tile the heap, no two free ones touch, and the free bytes add up |
| HeapTheorems.AllocFindsLowestFit | memory_allocator/heap_allocator.cpp:58-90 | an address is handed out if and only if the table has room, the size is positive and it is the lowest address with that many bytes free in a row |
| HeapTheorems.AllocAddsOneChunk | memory_allocator/heap_allocator.cpp:82-83 | the new chunk joins the live ones, apart from all of them, and no other changes |
| HeapTheorems.RefusedAllocChangesNothing | memory_allocator/heap_allocator.cpp:58-90 | an allocation that hands out no address leaves the whole state as it was |
| HeapTheorems.FreeRemovesOneChunk | memory_allocator/heap_allocator.cpp:174-190 | with room in the free table a free succeeds if and only if the address is a live chunk's, and removes that chunk only |
| HeapTheorems.FreeOutcome | memory_allocator/heap_allocator.cpp:167-195 | null is a null pointer error, an address that no live chunk starts at an invalid argument, a live one with a full free table a fragmentation error, and any other is freed; every error leaves the whole state as it was |
| HeapTheorems.FreeListIsShort | memory_allocator/heap_allocator.cpp:102-137 | the free list has at most one entry more than the live list |
| HeapTheorems.FragmentationNeedsManyChunks | memory_allocator/heap_allocator.cpp:142-144 | the fragmentation error needs at least 1023 live chunks |
| HeapTheorems.SameBytesSameList | memory_allocator/heap_allocator.cpp:102-137 | two coalesced lists that cover the same bytes are equal |
| HeapTheorems.FreeListIsCanonical | memory_allocator/heap_allocator.cpp:102-137 | the whole state is determined by the live chunks |
| HeapTheorems.FreeUndoesAlloc | memory_allocator/heap_allocator.cpp:58-195 | freeing what was just allocated restores the whole state if and only if the free table is not full |
| HeapRestore.FreeingAllRestoresHeapIff | memory_allocator/heap_allocator.cpp:102-195 | freeing all live chunks, in any order, restores the one full-heap free chunk if and only if the free table has room at the start and, with 1024 live chunks and 1023 free ones, the first chunk freed touches a free one |
| HeapRestore.JoinGrowsIff | memory_allocator/heap_allocator.cpp:102-164 | a freed chunk adds an entry to the free list if and only if it touches no free chunk |
| HeapFullTable.FullTableIsReached | memory_allocator/heap_allocator.cpp:140-144 | a run from the initial heap to 1023 live and 1024 free chunks, from which no sequence of frees changes anything |
| HeapAllocator.Allocator.constructor | memory_allocator/heap_allocator.cpp:15-32 | the initial state: one free chunk, the heap |
| HeapAllocator.Allocator.AllocChunk | memory_allocator/heap_allocator.cpp:35-50 | swapping backwards puts the chunk at its sorted place |
| HeapAllocator.Allocator.CropChunk | memory_allocator/heap_allocator.cpp:53-56 | the front of one free chunk is cut off |
| HeapAllocator.Allocator.RemoveFreed | memory_allocator/heap_allocator.cpp:76-79 | the entry is removed and the others keep their order |
| HeapAllocator.Allocator.HeapAlloc | memory_allocator/heap_allocator.cpp:58-90 | the whole new state and the address are those of the first fit; a refused request changes nothing |
| HeapAllocator.Allocator.EraseChunkFromAlloced | memory_allocator/heap_allocator.cpp:93-99 | the entry is removed and the others keep their order |
| HeapAllocator.Allocator.Compact | memory_allocator/heap_allocator.cpp:125-130 | everything behind the merged chunks moves up |
| HeapAllocator.Allocator.TryToMergeFreedChunks | memory_allocator/heap_allocator.cpp:102-137 | the loop merges the whole run of touching chunks around the position, in place |
| HeapAllocator.Allocator.AddChunkToFreed | memory_allocator/heap_allocator.cpp:140-164 | the chunk joins the sorted free list and what touches is merged; a full table changes nothing |
| HeapAllocator.Allocator.FindLive | memory_allocator/heap_allocator.cpp:174-177 | the binary search finds the first live chunk at the address or above |
| HeapAllocator.Allocator.HeapFree | memory_allocator/heap_allocator.cpp:167-195 | the whole new state and the outcome; each error comes back exactly when `HeapTheorems.FreeOutcome` says, and changes nothing |
| HeapAsWritten.AllocAsWrittenWorksIff | memory_allocator/heap_allocator.cpp:58-90 | without the repair an allocation keeps the partition if and only if nothing fits, or the first free chunk that does is larger than the request or the last one; it then does exactly what the repaired one does |
| HeapAsWritten.TakeAsWrittenWorksIff | memory_allocator/heap_allocator.cpp:74-80 | without the repair taking memory leaves the right list if and only if the chunk is not used up or is the last one |
| HeapAsWritten.FreeAsWrittenWorksIff | memory_allocator/heap_allocator.cpp:102-195 | without the repairs freeing live chunk k keeps the partition if and only if the guard on k, its size and the two chunk counts holds |
| HeapAsWrittenRuns.FreeAsWrittenKeepsIff | memory_allocator/heap_allocator.cpp:167-195 | without the repairs a free of any pointer keeps the partition if and only if the call is turned down, by the check against whatever the slot holds or for a full table, or the pointer is a live chunk's under that guard |
| HeapAsWrittenRuns.InitialRunKeepsIff | memory_allocator/heap_allocator.cpp:58-195 | a run of unrepaired calls from the initial heap keeps the partition at every step if and only if every free in it is turned down or frees the one chunk that is the whole heap |
| HeapAsWrittenRuns.NeverTwoFreeChunks | memory_allocator/heap_allocator.cpp:58-195 | no such run ever has two free chunks |
| HeapAsWrittenRuns.DoubleFreeLeavesTable | memory_allocator/heap_allocator.cpp:180-190 | the heap allocated as a whole and freed, then freed again: the stale slot is accepted and a table is left |
| HeapAsWrittenRuns.SecondByteCannotBeFreed | memory_allocator/heap_allocator.cpp:182-184 | after two one-byte allocations the second byte cannot be freed |
| HeapAsWrittenRuns.ExactFitLosesMemory | memory_allocator/heap_allocator.cpp:76-78 | with the free path repaired, two free chunks are reached; a request for the first as a whole leaves an empty chunk and loses the second |

## Left out

- Floating-point rounding, and the bit patterns of `float` and `double`, which are taken as whole numbers of their width.
- Overflow of `int` in image dimensions, box widths and row paddings, and running out of memory.
- BlurFilter.HorBlur: nothing about windows wider than the row; the pass then leaves its buffer (`BlurBounds.RowPassStaysInsideIff`).
- BlurFilter.TotalBlur: nothing about windows higher than the picture; the pass then leaves its buffer (`BlurBounds.ColumnPassStaysInsideIff`).
- Deserializer.DecodeInt: not for eight-byte integers, for which the source shifts a byte, as an `int`, by 32 bits or more (serialization/include/core.h:68).
- The library functions `decode<float>` and `decode<double>`, which go through the eight-byte `decode`, the first for a four-byte value (serialization/include/core.h:76-87), and which no deserializer calls.
- Client.MyClient.Update: nothing about bodies too short for the fields they announce, which the source reads past.
- Deserializer.Deserialize: nothing about buffers shorter than the primitive they announce, which the source reads past.
- Writing and loading `.ttc` files, and objects after they have been moved from.
- Sockets, threads and data races: the unlocked `empty()` checks of the queue and the sharing of `connections_` between threads are covered by the assumption of atomic steps.
- Server.MyServer.Update: does not show messages that arrive while the queue is being drained, which come to a later call here; in `ServerRuns` they may arrive between any two messages.
- Destructors, `Disconnect` and `Stop` beyond the closing of a socket as a step.
- The unrepaired allocator code (modules HeapAsWritten and HeapAsWrittenRuns) is modelled on values and not in place, because an access outside a table has to be an outcome.
- The contents of heap memory, and the addresses that `heap` itself lies at.
- Cross-polynomial, greyscale and edge filters, the filter factory, parameter parsing and the command line.
- The web server on sockets of its own and the blockchain prototype.
