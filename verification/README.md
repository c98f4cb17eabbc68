# lucene-arrow: verified codec, index builders and device protocols

A Dafny model of the storage codec and the index builders of lucene-arrow, with proofs
that their many fast and compact forms agree with one simple meaning. `dafny verify
dfyconfig.toml` checks the whole project.

## What is modelled

**Doc values.** A numeric field is stored as a constant, as indices into a table of
distinct values, divided by a gcd, as distances from the minimum, or directly; the choice
is made from statistics under wrapping 64-bit arithmetic. Values are bit-packed
(`Direct`), documents are kept as IndexedDISI blocks (`Disi`), offsets as DirectMonotonic
sequences (`Monotonic`), and terms in prefix-coded, compressed blocks (`TermsDict`). The
central idea: a packed payload is a natural number written in base 2^w, so packing,
gathering words and reading through a window are all statements about digits (`Bits`).
`NumericWrite`, `SortedNumeric`, `SortedTerms` and `BinaryValues` carry the round trip of
each field type, `DvFile` that of a whole file in which each field's data follows the
others'. The modules ending in `Code`, and `DvBuilder`, `PlanCode` and `DirectUnpack`, are
the loops and the builder object of the program, proved against those specifications.

**Ordinal maps.** `OrdinalMap` is the heap-driven merge of segment dictionaries,
`Ordinals` the plan rewrite that makes executors emit global ordinals.

**Forms.** A round trip does not say what lies between the two ends. `TermsForm`,
`DisiForm` and `FieldForms`, and the lemmas named `...Form`, `...Meaning` and `...Least`
beside other parts, say it: which bytes a block has, which form is taken when, that widths,
bases and keys are the least that will do.

**Inverted index.** `Csr` defines what postings rows of a bag of keys are and shows that
they are unique; `IndexBuild`, `ParallelBuild` and the device path (`Text...`) are three
builders that each produce that unique result. The tokenizer kernel is a state machine:
threads take atomic steps (a compare-and-swap on the vocabulary table, a fetch-and-add on
a counter) in any order, and the invariant holds in every state of every interleaving.
`TextRuns` says what runs, lines and stored spans have to do with each other.

**Other device code.** `Stats...`: the lock-free statistics kernel, with reads that may be
stale. `GpuPack`: word gathering and the funnel-shift reader. `PinnedRing`: the staging
ring. `TopKList`, `TopKChoice`, `TopK`: local lists, pooled choice, and the block of
threads between barriers. `Swar`, `ForDelta...`: the collapsed-lane FOR-delta decoder.

**Write session and graphs.** `ColBuffers` and `WriteSession` are the accumulator that
cuts segments between batches; `SegmentRead` closes the circle: what is pushed is what a
reader of the segment's file sees. `Navigable` and `HnswGraph` make a neighbour graph
navigable and write it.

## Where the code and its promise differ

A materialized dictionary keeps i32 offsets cast from an unchecked length. From 2^31 bytes
of distinct terms on they wrap, no error is raised, and not every term can be read back.
`Lex.LayoutExact` and `TermsDict.DictionaryExact` state the condition, the theorems about
fields, files and segments carry it, and `TermsDict.TwoGigabytesFail` is an instance.

The device ingest stores the length of a run with bytes above 0x7f in 16 bits and drops a
span whose cut end is not UTF-8. `TextIngest.Build` says what is built in every case, and
`TextCut.CutSpan` gives inputs on which that is not the field of the lines. Its compaction
buffers have 2^21 slots for a vocabulary of up to 2^22.

A put may hold batches without rows. If such a batch opens a segment of a dense numeric
column, the host encoder reads the first value of an empty chunk. `WriteSession.DoPut`
states exactly when a put succeeds, `WriteSession.RowlessFirstStops` gives an instance;
the device encoder has no such case (`WriteSession.DeviceGoes`).

`navigable_from_knn` guarantees a strongly connected graph, and the writer of neighbour
blobs keeps it as long as 2m is at least the cap. The segment writer passes a degree of
n - 1 and m = degree / 2 for small segments; for even n from 4 to 32 the lists are one
longer than 2m, and as ids are sorted before the cut, the last node loses every incoming
edge. `HnswGraph.SmallSegmentConnected` states for exactly which sizes the file is
connected, `HnswGraph.FourNodes` gives an instance.

The device top-k repeats slot 0 once its entries are exhausted; `TopK.TopKExact` states
for exactly which k the result is right, `TopK.OneDocument` is an instance.

A neighbour matrix with fewer than n rows is accepted, and the graph then has only the
nodes with a row; `Navigable.NavigableExact` states when it is still connected.

## Model

| member | source | states |
|---|---|---|
| NumericWrite.NumericRoundTrip | crates/docvalues/src/write.rs:300-401 | One numeric field at any offset: its entry parses back, plans, and decodes to every value at its document and null elsewhere, for any i64 values and whichever of the five encodings the policy picks |
| Policy.PolicyRecovers | crates/docvalues/src/write.rs:347-400 | Under wrapping arithmetic every value of a column that is not constant fits the chosen width and is recovered from its code, also when the range is wider than 2^63 or `min` is reset to 0 |
| Policy.ChoiceLeast | crates/docvalues/src/write.rs:347-400 | The width of a column that is not constant is the least supported one that holds either the index of each of at most 256 distinct values or each 64-bit distance divided by the gcd; the table is taken exactly where its indices are narrower |
| Policy.MinReset | crates/docvalues/src/write.rs:359-386 | The minimum gives way to 0 exactly if the gcd is 1, the minimum is positive, and the maximum needs no wider code than the range |
| Policy.ConstantColumn | crates/docvalues/src/write.rs:347-358 | Width 0 is chosen only where all values are the minimum |
| Policy.WideDelta | crates/docvalues/src/write.rs:359-386 | When max - min wraps, the divisor is 1, the width is 64 and wrapping undoes itself |
| StatsPass.Stats | crates/docvalues/src/write.rs:75-99 | The folding pass yields the minimum, the maximum, the gcd of all distances (1 outside the half range) and the sorted distinct values if there are at most 256 |
| StatsPass.StatsChunks | crates/docvalues/src/write.rs:125-150 | Streamed over chunks, the same statistics of the concatenation; the first chunk must not be empty |
| StatsPass.StatsUnique | crates/docvalues/src/write.rs:404-429 | The statistics are determined by the column, so any two passes that compute them agree |
| StatsPass.StatsMeaning | crates/docvalues/src/write.rs:75-99 | What the statistics say of the values: extremes; the gcd of all distances if every value lies in [-2^62, 2^62), otherwise 1; the distinct values in order exactly if there are at most 256 |
| BinaryGcd.GcdCompute | crates/docvalues/src/write.rs:404-429 | The binary algorithm on i64 magnitudes returns the greatest common divisor |
| BinaryGcd.GcdDivisors | crates/docvalues/src/write.rs:404-429 | The divisors of the result are exactly the common divisors |
| NumericCode.WriteValues | crates/docvalues/src/write.rs:300-401 | The imperative writer appends exactly the specified entry and payload, of the width ChoiceLeast characterises |
| NumericCode.EncodeNumericField | crates/docvalues/src/write.rs:269-298 | Refuses documents that are not ascending below max_doc, otherwise emits the specified field |
| NumericCode.EncodeDenseChunks | crates/docvalues/src/write.rs:247-264 | The chunked lane emits the field of the concatenated values at documents 0..max_doc, and refuses any other count |
| NumericWrite.DenseLane | crates/docvalues/src/write.rs:247-264 | The zero-copy lane and the materialized field whose documents are all documents give the same entry and the same payload |
| NumericCode.WriteDocs | crates/docvalues/src/write.rs:674-704 | The documents of a field: none, all, or an IndexedDISI block list, with the region it occupies |
| FieldForms.CoverageForm | crates/docvalues/src/write.rs:674-704 | The recorded numbers: -2 for no documents, -1 for all, and otherwise the place of an IndexedDISI with rank power 9 |
| NumericCode.ReadNumericEntry | crates/docvalues/src/read.rs:238-279 | The cursor walk reads what the entry reader says and stops where it says |
| NumericCode.WalkAll | crates/docvalues/src/read.rs:330-372 | The block walk of a multi-block payload finds the blocks the specification lists |
| FieldForms.WalkFinds | crates/docvalues/src/read.rs:330-372 | The walk over a payload of n values finds every stored block where it was put, whatever is around the payload; all blocks but the last have 16384 values |
| PlanCode.EntryIntoPlan | crates/docvalues/src/read.rs:293-411 | Entry to plan: coverage, and the single block or the walked blocks |
| NumericCode.DecodeNumericColumn | crates/cpu/src/lib.rs:29-102 | Decoding a plan: the values scattered over the bitmap as the decoder specification says |
| NumericCode.DecodeOneBlock | crates/cpu/src/lib.rs:435-486 | One block of any of the five kinds decodes as specified |
| NumericCode.ScatterValues | crates/cpu/src/lib.rs:60-102 | The bitmap walk moves value after value to the documents of the set bits |
| Direct.UnsignedBitsRequired | crates/docvalues/src/direct.rs:21-29 | The least supported width that holds the value read as unsigned |
| Direct.Pack | crates/docvalues/src/direct.rs:31-88 | All three packing loops append the same thing for every list of values: the number with the values, cut to the width, as base-2^w digits, padded |
| Direct.PackExact | crates/docvalues/src/direct.rs:31-180 | Reading what was packed gives the values back exactly when each of them fits the width |
| Direct.PayloadLenClosed | crates/docvalues/src/direct.rs:90-108 | The payload length the groups add up to is the closed form of `packed_len` |
| Direct.ReadAhead | crates/docvalues/src/direct.rs:75-108 | The padding lets a reader take the least of 1, 2, 4 and 8 bytes as wide as a value wherever one starts; its length for each of the fourteen widths |
| Direct.ForEachUnpacked | crates/docvalues/src/direct.rs:116-180 | The fused reader yields those digits for every supported width and count, and never reaches its `unreachable!` |
| Direct.NeverStraddles | crates/docvalues/src/direct.rs:138-158 | No supported width puts a value across nine bytes |
| DirectUnpack.Unpack | crates/docvalues/src/direct.rs:182-243 | The group-by-group reader yields the same values and fails exactly when the payload is short |
| Direct.UnpackOfPack | crates/docvalues/src/direct.rs:116-243 | Both readers give back what was packed, whatever follows in the file |
| Disi.DisiRoundTrip | crates/docvalues/src/disi.rs:27-194 | Decoding what was written yields exactly the bitmap of the documents, for ALL, DENSE and SPARSE blocks, skipped blocks and every rank power, stored as the byte the reader shifts by |
| DisiForm.BlockForm | crates/docvalues/src/disi.rs:75-104 | A block is its number, its count less one, and nothing if it is full, a short for each document while that is shorter than a bitset, and otherwise the bitset of 65536 bits behind its rank table |
| DisiForm.RegionEnd | crates/docvalues/src/disi.rs:27-73 | Behind the blocks come the six bytes of the sentinel and a jump entry for every block up to the last and for the sentinel, or none if all documents are in block 0 |
| Bitmap.BitmapUnique | crates/docvalues/src/disi.rs:132-194 | The bitmap is determined by the documents: no two bitmaps have the same set bits |
| DisiCode.WriteBitSet | crates/docvalues/src/disi.rs:27-73 | The block loop writes the specified bytes and returns the jump count; it refuses exactly the illegal rank powers |
| DisiCode.FlushBlock | crates/docvalues/src/disi.rs:75-104 | One block: header and payload of the kind its cardinality asks for |
| DisiCode.CreateRank | crates/docvalues/src/disi.rs:106-120 | The rank table as filled while counting once |
| DisiCode.RankMeaning | crates/docvalues/src/disi.rs:106-120 | Each rank entry is the number of set bits before its words |
| DisiCode.AddJumps | crates/docvalues/src/disi.rs:122-130 | Jump entries for the blocks up to the current one |
| DisiCode.JumpEntryStored | crates/docvalues/src/disi.rs:122-130 | Jump entry b is the eight bytes at 8b: its rank, then its offset |
| DisiCode.JumpEntryMeaning | crates/docvalues/src/disi.rs:122-130 | Jump entry b counts exactly the documents before block b and points at the blocks of all the others |
| DisiCode.Decode | crates/docvalues/src/disi.rs:142-194 | The imperative decoder computes what the reading function says, including its failures |
| Monotonic.MonotonicRoundTrip | crates/docvalues/src/monotonic.rs:19-111 | Decoding the blocks gives the sequence back for any predictor and any block size |
| Monotonic.OrAllCovers | crates/docvalues/src/monotonic.rs:19-65 | The or of the residuals is a width that fits each of them |
| Monotonic.BlockMeaning | crates/docvalues/src/monotonic.rs:19-65 | The line of a block goes from its first value to its last, the base is the least distance from it, and the width is the least for the distances from the base, 0 if all are 0 |
| FieldForms.AddressBlocks | crates/docvalues/src/monotonic.rs:19-65 | A sequence has a block for every 65536 values, made of just these |
| MonotonicCode.Write | crates/docvalues/src/monotonic.rs:19-65 | The block loop appends the specified metadata and data, and refuses exactly the sequences that fall |
| MonotonicCode.ReadAllMeta | crates/docvalues/src/monotonic.rs:67-83 | Block metadata is read as specified |
| MonotonicCode.DecodeSequence | crates/docvalues/src/monotonic.rs:85-111 | The decoding loop computes what the decoder specification says |
| Monotonic.AddressesRoundTrip | crates/docvalues/src/write.rs:706-722 | Addresses written for a field are read and decoded back |
| MonotonicCode.WriteAddresses | crates/docvalues/src/write.rs:706-722 | Offset, shift, metadata and length of an address sequence |
| MonotonicCode.ReadAddressesField | crates/docvalues/src/read.rs:471-480 | The address entry is read as specified |
| TermsDict.TermsRoundTrip | crates/docvalues/src/terms.rs:67-160 | Any strictly sorted terms: the entry parses back and the decoded blocks yield the same terms in order, for any compressor that inverts itself |
| TermsDict.DictionaryExact | crates/docvalues/src/terms.rs:49-160 | The flat layout with its i32 offsets, built from what was written, yields every term exactly when the terms together have fewer than 2^31 bytes |
| TermsDict.TwoGigabytesFail | crates/docvalues/src/terms.rs:49-160 | A failing dictionary: two terms of 1.1 GB each are written, but do not come back from the layout |
| TermsForm.BlockStarts | crates/docvalues/src/write.rs:451-543 | Every 64th term starts a block, in full, where the address of the block says |
| TermsForm.TokenForm | crates/docvalues/src/write.rs:500-520 | Every other term is two lengths in a token with escapes and the bytes behind the longest common prefix with the term before it |
| TermsForm.LongestIs | crates/docvalues/src/write.rs:451-543 | The stored maximum is the length of a longest term |
| TermsForm.LongestStream | crates/docvalues/src/write.rs:451-543 | The stored block maximum is the length of a longest stream of prefix-coded terms |
| TermsCode.AddTermsDict | crates/docvalues/src/write.rs:451-543 | The single pass over the terms writes the specified dictionary; it refuses exactly lists in which a term is a prefix of its predecessor |
| TermsCode.WriteTermsIndex | crates/docvalues/src/write.rs:546-593 | The index of every 1024th term |
| TermsForm.KeyMeaning | crates/docvalues/src/write.rs:546-593 | The key of every 1024th term is the shortest prefix of it that sorts after the term before it; the first key is empty |
| TermsDict.IndexSkipped | crates/docvalues/src/read.rs:505-509 | The planner steps over exactly what the index writer put there |
| TermsCode.MaterializeTerms | crates/docvalues/src/terms.rs:67-160 | The decoding loops push exactly the terms the plan stands for, with each offset cast to i32 |
| PlanCode.ReadTermsDictField | crates/docvalues/src/read.rs:486-522 | The dictionary entry is read as specified |
| Lex.LayoutExact | crates/docvalues/src/terms.rs:45-65 | `term(ord)` gives every term of a layout exactly when the i32 offsets do not wrap, that is below 2^31 bytes in all |
| Lex.LessIs | crates/docvalues/src/write.rs:607-613 | One term sorts before another exactly if it ends first, or has the smaller unsigned byte, where the two first differ |
| Lex.SortUniqueMeans | crates/docvalues/src/write.rs:607-613 | Sorting and deduplicating gives the one list with the same members in which every term precedes the next in that order |
| Lex.OrdsFollow | crates/docvalues/src/write.rs:607-622 | Ordinals are in the order of their terms |
| Columns.ListColumnRoundTrip | crates/cpu/src/lib.rs:149-178 | From the coverage and the ends of the lists, the offsets cut out exactly each document's list |
| DecodeCode.OffsetsOf | crates/cpu/src/lib.rs:149-178 | The running rank computes those offsets |
| SortedNumeric.SortedNumericRoundTrip | crates/docvalues/src/write.rs:724-761 | SORTED_NUMERIC: each document's values come back sorted, other documents are null, in the single-valued and in the multi-valued form |
| FieldForms.ManyForm | crates/docvalues/src/write.rs:740-760 | Ends of lists are stored exactly if some document has more than one value |
| SortedNumeric.SortLongsIs | crates/docvalues/src/write.rs:724-761 | The list stored for a document is its values in order, each as often as it was given |
| DvBuilder.EncodeSortedNumeric | crates/docvalues/src/write.rs:724-761 | The encoder emits the specified field |
| PlanCode.ReadSortedNumericEntry | crates/docvalues/src/read.rs:162-176 | The planner patches the coverage of a multi-valued field to count documents |
| DecodeCode.DecodeMultiNumeric | crates/cpu/src/lib.rs:260-273 | The list column as specified |
| SortedTerms.SortedRoundTrip | crates/docvalues/src/write.rs:595-622 | SORTED: each document's term comes back through its ordinal, and other documents are null, exactly when the distinct terms have fewer than 2^31 bytes |
| SortedTerms.SetRoundTrip | crates/docvalues/src/write.rs:763-815 | SORTED_SET: each document's terms come back sorted and without duplicates, as one term or as a list, exactly when the distinct terms have fewer than 2^31 bytes |
| FieldForms.SetForm | crates/docvalues/src/write.rs:793-812 | Ends of ordinal lists are stored exactly if some document has two terms that differ |
| DvBuilder.EncodeSorted | crates/docvalues/src/write.rs:595-622 | The encoder emits the specified field |
| DvBuilder.EncodeSortedSet | crates/docvalues/src/write.rs:763-815 | The encoder emits the specified field |
| PlanCode.ReadSetEntry | crates/docvalues/src/read.rs:186-201 | The set entry is read as specified |
| DecodeCode.DecodeSortedColumn | crates/cpu/src/lib.rs:197-233 | Keys scattered over the bitmap and the dictionary in its flat layout with i32 offsets |
| DecodeCode.DecodeSetColumn | crates/cpu/src/lib.rs:234-256 | Concatenated keys with document offsets |
| BinaryValues.BinaryRoundTrip | crates/docvalues/src/write.rs:625-672 | BINARY: each document's bytes come back, with fixed or varying lengths |
| FieldForms.BlobForm | crates/docvalues/src/write.rs:625-672 | Ends are stored exactly if two byte strings differ in length; the lengths recorded are the least and the greatest |
| DvBuilder.EncodeBinary | crates/docvalues/src/write.rs:625-672 | The encoder emits the specified field |
| PlanCode.ReadBinaryEntry | crates/docvalues/src/read.rs:417-458 | The binary entry is read as specified |
| DecodeCode.DecodeBinary | crates/cpu/src/lib.rs:278-327 | The doc-aligned column as specified |
| DvFile.FileRoundTrip | crates/docvalues/src/read.rs:119-209 | A file of any fields with distinct inventory entries: the planner stops exactly after the sentinel, and each field decodes to its own input although others follow it, terms exactly when they have fewer than 2^31 bytes |
| FieldForms.HeadForm | crates/docvalues/src/lib.rs:41-45 | A field begins with its number and one of the five type bytes |
| DvBuilder.DocValuesFileBuilder.AddNumeric | crates/docvalues/src/file.rs:50-71 | Appends a field at the current end of the data; a refused field leaves the file alone |
| DvBuilder.DocValuesFileBuilder.AddNumericDenseChunks | crates/docvalues/src/file.rs:73-91 | The same for the chunked lane |
| DvBuilder.DocValuesFileBuilder.AddSorted | crates/docvalues/src/file.rs:93-113 | The same for SORTED |
| DvBuilder.DocValuesFileBuilder.AddBinary | crates/docvalues/src/file.rs:115-127 | The same for BINARY |
| DvBuilder.DocValuesFileBuilder.AddSortedNumeric | crates/docvalues/src/file.rs:129-144 | The same for SORTED_NUMERIC |
| DvBuilder.DocValuesFileBuilder.AddSortedSet | crates/docvalues/src/file.rs:146-161 | The same for SORTED_SET |
| DvBuilder.DocValuesFileBuilder.Finish | crates/docvalues/src/file.rs:163-169 | From the finished pair of files the planner recovers every field that was added, with the same condition for terms |
| PlanCode.PlanDocValues | crates/docvalues/src/read.rs:119-209 | The planning loop returns the plans of the specification and always ends |
| FieldForms.SkipIndexed | crates/docvalues/src/read.rs:140-152 | A field with a skip index is planned as one without: 40 bytes behind the type are passed over |
| PlanCode.FieldShrinks | crates/docvalues/src/read.rs:134-206 | Reading an entry never moves the cursor back |
| Wire.VIntRoundTrip | crates/core/src/cursor.rs:96-106 | Every u32 written as a VInt is read back |
| Wire.VIntForm | crates/core/src/cursor.rs:202-218 | Byte i holds bits 7i to 7i + 6, all bytes but the last have the high bit set, and none is superfluous |
| Wire.VLongRoundTrip | crates/core/src/cursor.rs:108-119 | Every u64 written as a VLong is read back |
| Wire.WriteVInt | crates/core/src/cursor.rs:202-218 | The writing loops emit seven bits a byte, low group first |
| Wire.Cursor.VGroups | crates/core/src/cursor.rs:96-119 | The reading loops accumulate the groups, or fail after five or ten |
| Wire.Cursor.Take | crates/core/src/cursor.rs:50-61 | Takes n bytes or fails and stays where it is |
| Ordinals.OrdPlanRemaps | crates/docvalues/src/ordmap.rs:104-131 | Ordinals that cover 0..n are stored directly or as constant 0, so the rewrite never fails, and decoding the rewritten plan gives the mapped ordinals |
| Ordinals.RemapCommutes | crates/docvalues/src/ordmap.rs:104-131 | Whenever a plan can be rewritten, rewriting commutes with decoding |
| Ordinals.RemapPlan | crates/docvalues/src/ordmap.rs:104-131 | The loop over the blocks, or the error of the first block that cannot be rewritten |
| SortedTerms.SortedOrdsRemap | crates/docvalues/src/write.rs:595-622 | The ordinals of a SORTED field always satisfy that condition |
| SortedTerms.SetOrdsRemap | crates/docvalues/src/write.rs:775-801 | So do those of a SORTED_SET field |
| OrdinalMap.Build | crates/docvalues/src/ordmap.rs:59-99 | The heap-driven merge of sorted dictionaries gives their union, in which every term precedes the next byte by byte, and strictly increasing remaps that look up the same terms, after as many pops as there are terms; it fails exactly when the union outgrows i32 offsets |
| Analyzer.Tokenize | crates/postings/src/text.rs:18-38 | The scanning loop yields the maximal lowercased alphanumeric runs of at most 255 bytes |
| Analyzer.TokenLengths | crates/postings/src/text.rs:18-38 | Every token has between 1 and 255 bytes |
| Analyzer.ForEachToken | crates/postings/src/text.rs:93-129 | The byte-wise scanner with its scratch buffer yields the same tokens on valid UTF-8 |
| Analyzer.TokensSplit | crates/postings/src/text.rs:18-38 | A separator cuts tokenization into independent parts |
| Analyzer.RunToken | crates/postings/src/text.rs:18-38 | A run of alphanumeric characters is one token, its lowercased UTF-8, if that has 1 to 255 bytes, and none otherwise |
| Analyzer.TextRoundTrip | crates/postings/src/text.rs:93-129 | Decoding the UTF-8 of a text gives the text |
| SmallFloat.NormAdjoint | crates/postings/src/text.rs:46-88 | A length reaches the length a byte stands for exactly when its own byte reaches that byte |
| SmallFloat.NormRoundTrip | crates/postings/src/text.rs:46-88 | Decoding an encoded length gives the largest representable length not above it, and the encoding keeps the order |
| SmallFloat.ByteStandsFor | crates/postings/src/text.rs:46-88 | A byte below 24 stands for itself, the others for 24 and eight steps to every doubling |
| Csr.KeysToCsr | crates/postings/src/build.rs:205-313 | Buckets, sorting, run lengths and forward fill turn any chunks of keys into rows with ascending documents, frequencies that are multiplicities, exact spans and the right total |
| Csr.CsrUnique | crates/postings/src/build.rs:201-204 | Those conditions determine the result, so it does not depend on how keys are chunked, ordered or spread over threads |
| Csr.FillForward | crates/postings/src/build.rs:304-313 | The in-place fill gives every ordinal a span, also those without keys |
| IndexBuild.IndexBuilder.AddDoc | crates/postings/src/build.rs:59-76 | Adds one document's tokens |
| IndexBuild.IndexBuilder.Finish | crates/postings/src/build.rs:84-106 | The serial builder produces an inverted field of the documents added |
| ParallelBuild.BuildParallel | crates/postings/src/build.rs:113-199 | For every thread count and at least one line the parallel builder produces an inverted field of the same documents |
| Inverted.InvertedUnique | crates/postings/src/build.rs:337-360 | An inverted field is determined by the documents: serial, parallel and device builds are identical |
| Inverted.PostingsMeaning | crates/postings/src/build.rs:29-45 | A document is listed for a term exactly when it holds it, with the number of its occurrences, in ascending order |
| Inverted.TermsMeaning | crates/postings/src/build.rs:29-45 | The dictionary lists the tokens of the documents, each once, in the order of their bytes, and ordinals read them from it |
| Inverted.NormMeaning | crates/postings/src/build.rs:59-76 | There is one norm per document, and it reaches a byte exactly when the document has at least as many tokens as that byte stands for; from 2^31 tokens on the 32-bit count is negative and the norm 0 |
| TextInvariant.RunInv | crates/gpu/src/text_ingest.rs:48-110 | Every state of every interleaving: each occupied slot on the probe path of a term is occupied by another term, every token found so far has its pair, every dirty run its span |
| TextMachine.OneSlot | crates/gpu/src/text_ingest.rs:96-106 | A term owns one slot of the table |
| TextProgress.RunsEnd | crates/gpu/src/text_ingest.rs:48-110 | Every run is bounded and can stop only when all threads have returned, as long as the distinct clean terms fit the table |
| TextRuns.CorpusRuns | crates/gpu/src/text_ingest.rs:60-110 | Walking the bytes run by run gives the same tokens in the same documents as tokenizing line by line |
| TextRuns.LinesMeaning | crates/gpu/src/text_ingest.rs:185-191 | The lines laid end to end are the text; each but the last ends in its only newline |
| TextResult.FinalPairs | crates/gpu/src/text_ingest.rs:48-110 | At the end the pairs and the re-tokenized spans are exactly the pairs the runs come to, each as often as it occurs, where a dirty run counts with what its stored span holds |
| TextResult.FinalCount | crates/gpu/src/text_ingest.rs:98-110 | The kernel's counts and the span counts add up to the length of each document stored |
| TextKernel.DocStarts | crates/gpu/src/text_ingest.rs:185-191 | The offsets at which documents start |
| TextKernel.SameTerm | crates/gpu/src/text_ingest.rs:39-46 | The lowercased comparison holds exactly for equal terms |
| Analyzer.AsciiLetters | crates/gpu/src/text_ingest.rs:30-37 | Which ASCII bytes are letters and digits, and which lowercasing changes, by their characters |
| TextKernel.ScanRun | crates/gpu/src/text_ingest.rs:62-74 | The run scan stops at the end of the run and notes bytes above 0x7f |
| TextIngest.CompactTable | crates/gpu/src/text_ingest.rs:113-130 | The occupied slots and their locations |
| TextIngest.Retokenize | crates/gpu/src/text_ingest.rs:292-342 | Spans re-tokenized on the host, in contiguous parts |
| TextIngest.Build | crates/gpu/src/text_ingest.rs:179-399 | Whatever the interleaving: the build is refused exactly when the dirty runs do not fit the span buffer, breaks exactly when there are more than 2^21 clean terms, and otherwise yields the inverted field of the documents stored, which are the lines if no dirty run exceeds 65535 bytes |
| TextRuns.StoredDocsHold | crates/gpu/src/text_ingest.rs:62-110 | The documents stored hold, each in its place, exactly the pairs of all runs |
| TextRuns.StoredLines | crates/gpu/src/text_ingest.rs:62-110 | They are the tokenized lines if no dirty run exceeds 65535 bytes |
| TextCut.CutSpan | crates/gpu/src/text_ingest.rs:82-86 | A failing input of every odd length from 65537 bytes on: one run of two-byte signs and a letter is a document with one token, and the cut span, no longer UTF-8, stores none; no field is that of both |
| StatsInvariant.RunInv | crates/gpu/src/encode.rs:52-113 | Every state of every interleaving: the accumulator is a multiple of the true gcd and divides all deltas merged, the table holds each value found once, the flags are honest |
| StatsInvariant.FinalGcd | crates/gpu/src/encode.rs:103-112 | The merge by compare-and-swap ends at the gcd of the column |
| StatsInvariant.DeviceStats | crates/gpu/src/encode.rs:264-318 | The downloaded cells are the statistics of the column for every interleaving and every stale read; with StatsUnique they equal the sequential pass |
| StatsProgress.Progress | crates/gpu/src/encode.rs:103-112 | Lock freedom: with every step the work left falls, or it stays and fewer threads are behind the accumulator |
| StatsProgress.RunsEnd | crates/gpu/src/encode.rs:52-113 | Every run is bounded, and one that has not finished can go on |
| StatsMachine.HostStats | crates/gpu/src/encode.rs:292-318 | Assembling the statistics from the downloaded cells |
| BinaryGcd.BinGcd | crates/gpu/src/encode.rs:35-50 | The device gcd of magnitudes up to 2^63 |
| GpuPack.GatherWord | crates/gpu/src/encode.rs:115-161 | A word gathered by one thread is the corresponding 64 bits of the packed stream |
| GpuPack.NoOverflow | crates/gpu/src/encode.rs:140-150 | On plans the policy emits the kernel's signed subtraction does not overflow |
| GpuPack.Pack | crates/gpu/src/encode.rs:417-443 | The device encoder returns byte for byte what the host packer writes |
| GpuPack.WordsToPayload | crates/gpu/src/encode.rs:376-397 | The words cut or padded to the packed length |
| GpuPack.FunnelShift | crates/gpu/src/executor.rs:69-77 | Joining two words by the funnel shift extracts the bits at that position |
| GpuPack.ReadValue | crates/gpu/src/executor.rs:51-95 | The device reader returns the i-th packed value |
| PinnedRing.NoOverwrite | crates/gpu/src/executor.rs:585-610 | At any copying speed, a staging buffer being filled is read by no queued copy |
| PinnedRing.RunInv | crates/gpu/src/executor.rs:585-610 | The invariant behind it holds in every state of every run |
| PinnedRing.Progress | crates/gpu/src/executor.rs:585-610 | Until everything is copied some step is possible, and every step leaves less to do |
| PinnedRing.RunsEnd | crates/gpu/src/executor.rs:585-610 | Every run is bounded by the work of host and device, and one that has not finished can go on |
| PinnedRing.UploadsArrive | crates/gpu/src/executor.rs:563-610 | After synchronizing, the device holds the bytes of any series of uploads, for any chunk size and depth |
| TopKList.KeepBest | crates/gpu/src/bm25.rs:101-112 | The in-place insertion keeps the specified list over a strided slice |
| TopKList.LocalBest | crates/gpu/src/bm25.rs:101-112 | That list is sorted, holds the slice's documents with their scores at most once, and misses only documents none of its entries is worse than |
| TopK.ScanSlots | crates/gpu/src/bm25.rs:124-128 | The strided argmax of one thread |
| TopK.RunInv | crates/gpu/src/bm25.rs:97-144 | What every interleaving between barriers keeps, phase by phase |
| TopKChoice.ChosenBest | crates/gpu/src/bm25.rs:119-143 | Taking the best entry left k times over the pooled lists gives k distinct documents with the k largest scores, descending |
| TopK.TopKExact | crates/gpu/src/bm25.rs:97-144 | In every run the pairs the host keeps are the top k exactly when k <= num_docs or there are no documents; with fewer documents an exhausted round reports slot 0 again |
| TopK.Progress | crates/gpu/src/bm25.rs:97-144 | Some thread can always step until the block is done, and every step leaves fewer |
| TopK.RunsEnd | crates/gpu/src/bm25.rs:97-144 | Every run is bounded, and one that is not done can go on |
| TopK.OneDocument | crates/gpu/src/bm25.rs:97-144 | A failing job: with one document and k = 2 every run reports the document, then slot 0 again |
| ForDelta.DecodeInts | crates/postings/src/pfor.rs:60-104 | Lane by lane the shifted groups and the left-over bits rebuild every value of the block, in place |
| ForDeltaSums.NoCarry | crates/postings/src/pfor.rs:33-58 | Lane sums of collapsed blocks never carry into the next lane |
| ForDeltaSums.LeastLane | crates/postings/src/pfor.rs:122-128 | The lane is the least of 8, 16 and 32 bits in which the sum of a stretch of the largest deltas cannot overflow |
| ForDeltaSums.PackedForm | crates/postings/src/pfor.rs:108-128 | The packed form with its lanes spelled out: four of 8 bits up to 3 bits a delta, two of 16 up to 10, one of 32 from 11 on |
| ForDeltaSums.PackedValue | crates/postings/src/pfor.rs:60-104 | Where the bits of a delta are: which word, which lane, and how many others above it |
| ForDeltaSums.WrappingPrefixSum | crates/postings/src/pfor.rs:51-58 | Wrapping prefix sums in place |
| ForDeltaSums.Expand8 | crates/postings/src/pfor.rs:33-41 | Four lanes spread over the block |
| ForDeltaSums.Expand16 | crates/postings/src/pfor.rs:43-49 | Two lanes spread over the block |
| ForDeltaSums.ForDeltaDecode | crates/postings/src/pfor.rs:108-157 | The decoded documents are the plain prefix sums of the deltas from the base, for every width 1..32 |
| ForDeltaEncode.EncodePacked | crates/postings/src/pfor.rs:60-104 | Any 128 deltas below 2^bpv have a packed form the decoder reads, so the decoder's premise is always met |
| ColBuffers.AppendColumn | crates/flight/src/write.rs:619-760 | One column of a batch into its buffer: it fails exactly on a column of the wrong type, and the buffer then holds the old column followed by the new one |
| ColBuffers.DemotionKeeps | crates/flight/src/write.rs:625-648 | Demoting the dense lane changes the form of the buffer, not the column it holds |
| ColBuffers.PresentIs | crates/flight/src/write.rs:640-648 | Documents and values list exactly the rows that are not null |
| WriteSession.WriteSession.constructor | crates/flight/src/write.rs:343-357 | An empty session; a limit of 0 counts as 1 |
| WriteSession.WriteSession.Push | crates/flight/src/write.rs:360-373 | A batch is taken whole into one segment; a segment is cut first exactly when it has reached the limit |
| WriteSession.WriteSession.FlushSegment | crates/flight/src/write.rs:375-606 | The segment stores the columns of its batches; with the host encoder it panics exactly when a dense column starts with an empty chunk, with the device encoder never |
| WriteSession.WriteSession.Finish | crates/flight/src/write.rs:609-616 | Delivers segments for all batches taken, or refuses a session without rows |
| WriteSession.DoPut | crates/flight/src/server.rs:192-209 | A whole put succeeds exactly when all batches are acceptable, one has rows, and no cut of them lets a dense column start with an empty chunk under the host encoder; it then delivers all batches |
| WriteSession.CutUnique | crates/flight/src/write.rs:358-364 | Where the cuts fall is determined by the batches and the limit |
| WriteSession.Conserved | crates/flight/src/write.rs:358-364 | Column by column the segments laid end to end are the batches laid end to end |
| WriteSession.NeverStarved | crates/docvalues/src/write.rs:125-131 | A put of acceptable batches that all have rows succeeds with either encoder |
| WriteSession.DeviceGoes | crates/gpu/src/encode.rs:445-453 | With the device encoder, which does not look at the first chunk, a put succeeds exactly when all batches are acceptable and one has rows |
| WriteSession.RowlessFirstStops | crates/docvalues/src/write.rs:125-131 | A failing put for every limit: a batch without rows, then one with rows, stops the host encoder and not the device encoder |
| SegmentRead.SegmentReadsBack | crates/flight/src/write.rs:384-441 | The file of a segment, planned and decoded, has every field at its place, and shows the column its batches brought, row by row, exactly when its distinct terms have fewer than 2^31 bytes |
| Navigable.NavigableFromKnn | crates/vectors/src/hnsw.rs:35-56 | The loops over the adjacency arrays build the specified lists for the rows the matrix has, and break exactly on a degree of 0 or an id outside those rows |
| Navigable.NavigableExact | crates/vectors/src/hnsw.rs:29-56 | With ids below n, the lists of the rows there are form a strongly connected graph exactly when no row is missing, or all are |
| Navigable.RowsMeaning | crates/vectors/src/hnsw.rs:35-45 | The matrix is cut into rows as long as there are entries, up to n; the last one may be short |
| Navigable.ListMeaning | crates/vectors/src/hnsw.rs:29-56 | A list has ring neighbours, row neighbours and the nodes whose rows have u, none twice and not u; all of them if there is room, and a node wanted for its reverse edge only after every other one |
| Navigable.ListsNavigable | crates/vectors/src/hnsw.rs:29-56 | In-range, self-free, duplicate-free lists of at most cap nodes that form a strongly connected digraph |
| HnswGraph.WriteNeighborBlob | crates/vectors/src/hnsw.rs:317-342 | Sorted, deduplicated, range-checked, cut and written as deltas, with no delta underflowing |
| HnswGraph.BlobMeaning | crates/vectors/src/hnsw.rs:317-342 | It fails exactly on an id out of range, and otherwise keeps the smallest ids in order, each once, without the node, up to the cut |
| HnswGraph.DeltasRoundTrip | crates/vectors/src/hnsw.rs:330-338 | Adding the deltas up gives the ids back |
| HnswGraph.WriteLevel | crates/vectors/src/hnsw.rs:260-273 | Level 0 node by node; one neighbour out of range fails it |
| HnswGraph.SerializedKeeps | crates/vectors/src/hnsw.rs:317-342 | The file keeps the edges exactly when no list is longer than 2m |
| HnswGraph.NavigableSurvives | crates/vectors/src/hnsw.rs:29-56 | With 2m >= cap the file holds the same, strongly connected graph |
| HnswGraph.BuildGraph | crates/flight/src/write.rs:834-873 | The graph of a small segment |
| HnswGraph.NearestMeaning | crates/flight/src/write.rs:843-858 | The row of a node is its 32 nearest others, or all of them, by distance and then id; every node left out is behind all of the row |
| HnswGraph.SmallSegmentConnected | crates/flight/src/write.rs:840-871 | The file of a segment of 1 to 4096 vectors is strongly connected exactly when n <= 3, n is odd, or n > 33 |
| HnswGraph.FourNodes | crates/flight/src/write.rs:840-871 | A concrete failure: with four vectors the last one cannot be reached |

## Left out

- Headers, footers and checksums of files are opaque byte strings in front of and behind the modelled parts; `verify_footer` and `read_index_header` are not part of this model.
- LZ4 is any pair of functions that inverts itself on every dictionary and input; the compressor's hash table, reused between blocks, is part of that function.
- The straight line of DirectMonotonic (f32 slopes) is an arbitrary function of the slope's bits and the index; arithmetic around it wraps, as in a build without overflow checks.
- Unicode classification and lowercasing are parameters that agree with the ASCII rules below 0x80; the vocabulary hash is an arbitrary function into the table.
- Arrow arrays, their schemas and their validation, UTF-8 detection for dictionaries, timing, manifests, and the I/O of segment files.
- The conversions of the numeric coercions (widening, decimal scaling, float bits): a numeric column arrives as i64 values. A vector is a list of component bits.
- Document ids and counters are unbounded naturals except where a result states a bound; a session's document count does not wrap at 2^32. Jump-entry counts are stored in 16 bits as the code does.
- A session after a failed push is not described beyond its finished segments: the code leaves buffers half filled and its only caller drops the session.
- Standard-library sorting, deduplication and the binary heap are represented by insertion sorts and by popping the least element of a set.
- Scoped host threads that share nothing run one after the other over their parts; a barrier phase of the top-k block is one step per thread, since between two barriers no thread reads a cell another one writes.
- The staging ring uses one in-order stream; failures of device calls, pinned downloads and the packer's upload cache are not modelled.
- TopK.TopKExact: which of several documents with the same score comes first, or is left out, is not stated; the answer is right either way.
- BM25 scores are given numbers above the sentinel; the floating-point sums that make them, k-nearest-neighbour distances (here any total order) and the cuVS graph builders are not modelled.
- Upper levels of a graph, the group-varint bytes of a neighbour blob, the `.vem` entry, `small_world_from_cagra` and the hnswlib parser: outside the connectivity question.
- Vector flat files, norms, `.fnm` and `.si` writers, requests and transport: no branching worth a proof.
- DvFile.PlanEntries: carries a bound on the number of entries; PlanCode.PlanDocValues starts it at the length of the metadata, which no file exhausts because every entry takes at least four bytes.
- DirectUnpack.Unpack: its three group shapes are one loop over groups with the length of the shape; the aligned shape checks its length once up front in the source and group by group here, with the same outcome.
- TextIngest.Build: more than 2^21 clean terms are a panic, which the code reaches when it slices the downloaded buffers; that the kernel has by then written past their ends is not modelled. It speaks of finished runs; that every run finishes is shown as long as the clean terms fit the table of 2^22 slots.
