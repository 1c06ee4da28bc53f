# A Dafny model of the cnn-accelerator MyHDL core

This project models the arithmetic and data-layout core of a MyHDL description of a small CNN accelerator:

- the 8-bit floating-point format E4M3 (1 sign bit, 4 exponent bits, 3 mantissa bits, bias 7), with its constants (`fp_defs.py`), the test-side codecs `fp8_to_float` / `float_to_fp8` and the string-producing converter `convert_to_e4m3`;
- the E4M3 arithmetic units: the combinational adder with its output register, the clocked multiplier, the draft accumulator `fp8_mac`, and the generic-width three-stage pipeline `fp_mac`;
- the integer `register` / `mac` / `pe` trio, the generic slice-and-concatenate `processing_array`, the two 3x3 integer array state machines and the 2x2 FP8 array with its done-latch barrier;
- the matrix-packing helper `extract_matrix_vectors` and the im2col and tiled convolution scripts.

Each file of the source is one module.

- A combinational block is a pure function of its inputs.
- A clocked block is a step function over a register datatype. It computes every `.next` from the pre-edge values, as MyHDL does at a rising edge. A class with a `Tick` method applies that step in place.
- Where the simulation would stop with an exception (an intbv range error, a negative shift, an item assignment on a Signal, a `concat` of plain integers), the step returns `None` and `Tick` returns `ok == false`.
- Several defects are modelled twice, once as written and once corrected, under a `corrected` flag or a `Corrected…` name. The lemmas show where the two differ (see "## Findings").

## Model

| member | source | states |
|---|---|---|
| FpDefs.ExtractComponentsConstants | src/utils/fp_defs.py:9-16 | the masks are 0x80, 0x78 and 0x07 and the shift is MAN_BITS; the three masks are pairwise disjoint and together cover the byte |
| FpDefs.WidthIsSumOfFields | src/utils/fp_defs.py:2-4 | WIDTH = 1 sign bit + EXP_BITS + MAN_BITS |
| FpDefs.PackFields | src/utils/fp_defs.py:12-16 | packing a sign, exponent and mantissa and reading them back with the masks returns each field |
| FpDefs.FieldsDetermineByte | src/utils/fp_defs.py:12-16 | a byte is its three fields packed together |
| FpDefs.SpecialPatterns | src/utils/fp_defs.py:2-7 | exponent and mantissa 0 exactly for 0x00/0x80; exponent 15, mantissa 0 exactly for 0x78/0xF8 |
| FpDefs.NanAndZeroFields | src/utils/fp_defs.py:6-7 | NAN = 0x7F has exponent 15, mantissa 7, sign 0; ZERO has zero fields |
| FpDefs.MasksSelectFields | src/utils/fp_defs.py:12-16 | `x & mask` is the sign, exponent or mantissa field of any byte x, in place |
| Reg.RunIsLastWrite | src/hdl/components/reg.py:32-37 | after any sequence of edges the register holds the value of the last edge that reset (0) or was enabled (d), or its starting value when none did |
| Reg.HoldsWhileDisabled | src/hdl/components/reg.py:34-37 | with reset and enable low the stored value never changes |
| Reg.RunFits | src/hdl/components/reg.py:18 | when every d fits `width` bits the register never holds more than `width` bits |
| Reg.RegRunSnoc | src/hdl/components/reg.py:32-37 | one more edge after a run applies `reg_logic` once more to the stored value |
| Reg.Register.constructor | src/hdl/components/reg.py:18 | `_reg` starts at 0 with the given width |
| Reg.Register.Tick | src/hdl/components/reg.py:32-41 | one rising edge stores 0 on reset, d when enabled, else keeps the value; `q` follows it |
| Mac.MacNext | src/hdl/components/mac.py:31-37 | clear (or reset) gives 0; otherwise the edge succeeds exactly when acc + a*b lies in the result's range, and every stored value lies in it |
| Mac.AccumulatesDot | src/hdl/components/mac.py:31-37 | while no edge clears and every partial sum stays in range, acc is the starting value plus the dot product of the operand pairs |
| Mac.OverflowFails | src/hdl/components/mac.py:37 | the first partial sum outside the range makes the run fail (an intbv range error), never a silent wrap |
| Mac.ClearRestarts | src/hdl/components/mac.py:33-34 | an edge with clear or reset after a run that did not fail leaves acc = 0 |
| Mac.MacUnit.constructor | src/hdl/components/mac.py:17 | `acc` starts at 0, which must lie in the result's range |
| Mac.MacUnit.Tick | src/hdl/components/mac.py:31-42 | one rising edge updates acc as `MacNext` says and reports failure instead of leaving the range |
| Pe.AccRange | src/hdl/components/pe.py:40 | `mac_out` is an unsigned acc_width-bit signal, so it holds 0 |
| Pe.MacViews | src/hdl/components/pe.py:42-44 | the MAC is fed a_in, b_in and reset as its clear, edge by edge |
| Pe.OneEdge | src/hdl/components/pe.py:42-49 | one edge registers a_in/b_in (0 on reset) into a_out/b_out, updates mac_out, and c_out shows mac_out exactly when read_result is high |
| Pe.MacInside | src/hdl/components/pe.py:44 | the element fails exactly when the MAC fed the same operands fails, and then holds the same accumulator |
| Pe.ComputesDot | src/hdl/components/pe.py:42-49 | after a reset edge, mac_out is the dot product of the later operand pairs, and c_out is that value when the last edge reads the result |
| Pe.PeRunSnoc | src/hdl/components/pe.py:42-49 | one more edge after a run applies `PeNext` once more |
| Pe.ProcessingElement.constructor | src/hdl/components/pe.py:40-44 | the element and its two registers and MAC start at 0 |
| Pe.ProcessingElement.Tick | src/hdl/components/pe.py:42-49 | one edge of both registers and the MAC, then `output_logic`, matching `PeNext`; on a MAC range error the operand registers have still latched and `mac_out` and `c_out` are unchanged |
| ProcessingArray.ShadowSlices | src/hdl/components/processing_array.py:45-56 | a_slices and b_slices are the data_width-bit fields of the two buses, field i being bits [(i+1)*w : i*w] |
| ProcessingArray.SliceBus | src/hdl/components/processing_array.py:47-51 | one slicing loop yields exactly the n fields of the bus |
| ProcessingArray.SliceBounds | src/hdl/components/processing_array.py:49-51 | field i is the MyHDL slice with the source's own bounds |
| ProcessingArray.PeWiring | src/hdl/components/processing_array.py:63-82 | PE k = i*cols + j is connected to A slice k / cols and B slice k % cols |
| ProcessingArray.WiringAt | src/hdl/components/processing_array.py:67-73 | PE i*cols+j receives A slice i and B slice j |
| ProcessingArray.OutputFields | src/hdl/components/processing_array.py:85-89 | `concat(*reversed(c_outputs))` has c_outputs[k] as field k and nothing above the last field |
| ProcessingArray.OutputFromFields | src/hdl/components/processing_array.py:89 | concatenating the fields of a word gives the word back |
| ProcessingArray.SaturateDetect | src/hdl/components/processing_array.py:91-98 | the OR loop with its early exit reports true exactly when some flag is set |
| ProcessingArray3x3.AccPowers | src/hdl/components/processing_array_3x3.py:43-50 | 2^ACC_WIDTH is the 32-bit modulus the result fields use |
| ProcessingArray3x3.ShadowSlices | src/hdl/components/processing_array_3x3.py:57-58 | as written: the shadow slices are the low 7 bits of each bus byte, and the assignment raises exactly when one of them is 0x7F, the value `max=data_max` leaves out |
| ProcessingArray3x3.SevenBits | src/hdl/components/processing_array_3x3.py:71-78 | the MyHDL slice `x[8m+7 : 8m]` is byte m of x without its top bit |
| ProcessingArray3x3.SlicesAsWritten | src/hdl/components/processing_array_3x3.py:71-73 | for a bus holding one byte x, the source raises exactly when x's low 7 bits are 0x7F and otherwise passes x without its top bit (0x80, i.e. -128, reaches the PE as 0) |
| ProcessingArray3x3.SignedByte | src/hdl/components/processing_array_3x3.py:47-48 | a byte read as two's complement lies in [data_min, data_max] and is congruent to the byte mod 256 |
| ProcessingArray3x3.SignedSlices | src/hdl/components/processing_array_3x3.py:31-32 | corrected slicing: each element is the full byte read as two's complement, in [data_min, data_max] |
| ProcessingArray3x3.SignedSlicesAgree | src/hdl/components/processing_array_3x3.py:71-78 | the as-written and corrected slices agree exactly on buses whose bytes are all below 0x7F |
| ProcessingArray3x3.PeOperands | src/hdl/components/processing_array_3x3.py:95-246 | PE 3i+j receives A slice i and B slice j |
| ProcessingArray3x3.AllPesDone | src/hdl/components/processing_array_3x3.py:268-281 | `all_pes_done` is high exactly when all nine done flags are |
| ProcessingArray3x3.OverflowDetected | src/hdl/components/processing_array_3x3.py:284-296 | `o_overflow_detected` is high exactly when some overflow flag is |
| ProcessingArray3x3.FsmNext | src/hdl/components/processing_array_3x3.py:248-266 | after an edge `o_computation_done` is high iff no reset, PROCESSING and all PEs done; the state is PROCESSING iff no reset and (IDLE with data valid, or PROCESSING without all done) |
| ProcessingArray3x3.DonePulse | src/hdl/components/processing_array_3x3.py:255-263 | `o_computation_done` is a one-edge pulse: never high on two consecutive edges |
| ProcessingArray3x3.ProcessingUntilAllDone | src/hdl/components/processing_array_3x3.py:254-266 | once started from IDLE, the FSM stays in PROCESSING with done low while no reset comes and the PEs are not all done |
| ProcessingArray3x3.CompletesOnAllDone | src/hdl/components/processing_array_3x3.py:259-263 | the edge on which all PEs are done returns to IDLE with `o_computation_done` high |
| ProcessingArray3x3.Field | src/hdl/components/processing_array_3x3.py:304-312 | the 32-bit field meant for a result is below 2^32 and is the result itself when that is non-negative |
| ProcessingArray3x3.Fields | src/hdl/components/processing_array_3x3.py:304-312 | the fields of the nine results, one per PE |
| ProcessingArray3x3.SignedFieldOfField | src/hdl/components/processing_array_3x3.py:49-50 | any 32-bit signed result read back from its field is the result |
| ProcessingArray3x3.ResultNext | src/hdl/components/processing_array_3x3.py:298-325 | `result_matrix_logic` keeps the register within NUM_PES * ACC_WIDTH bits |
| ProcessingArray3x3.ResultClearAndHold | src/hdl/components/processing_array_3x3.py:300-325 | reset or clear_acc clears the register; without all PEs done it holds its value |
| ProcessingArray3x3.LoadAsWritten | src/hdl/components/processing_array_3x3.py:303-312 | as written, the load raises exactly when some PE result is negative, and otherwise field k of the register is pe_results[k] |
| ProcessingArray3x3.MinusOneRaises | src/hdl/components/processing_array_3x3.py:304 | a result of -1 in PE 0 stops the simulation on the load edge |
| ProcessingArray3x3.LoadCorrected | src/hdl/components/processing_array_3x3.py:303-312 | the corrected load (two's-complement fields) never raises, and each field read back as signed 32 bits is the PE result |
| ProcessingArray3x3.CorrectedLoadAgrees | src/hdl/components/processing_array_3x3.py:298-325 | where the source does not raise, the corrected load gives the same register |
| ProcessingArray3x3.ReadAfterLoad | src/hdl/components/processing_array_3x3.py:327-332 | after a corrected load, `o_result_matrix` shows each PE result while read_enable is high and 0 otherwise |
| ProcessingArray3x3.Array3x3.constructor | src/hdl/components/processing_array_3x3.py:60-65 | the FSM starts in IDLE with done low and the result register at 0 |
| ProcessingArray3x3.Array3x3.Tick | src/hdl/components/processing_array_3x3.py:248-325 | one rising edge of both clocked blocks: it fails exactly when the load raises, and otherwise the FSM and register take their next values |
| IntProcessingArray.VectorDecomposition | src/hdl/components/int_processing_array.py:25-32 | the decomposition loop succeeds exactly when every 8-bit field of both buses is below 128, which `max=128` requires, and then yields the fields |
| IntProcessingArray.MostNegativeElementRaises | src/hdl/components/int_processing_array.py:25-31 | -128 packed as 0x80 in element 0 of A makes the decomposition raise |
| IntProcessingArray.PackedElementsDecompose | src/hdl/components/int_processing_array.py:28-32 | buses packed from elements below 128 pass and decompose back into the packed elements |
| IntProcessingArray.SignedDecompositionAgrees | src/hdl/components/int_processing_array.py:25-32 | wherever the source does not raise, its elements are the two's-complement reading of each byte |
| IntProcessingArray.AggregateFlags | src/hdl/components/int_processing_array.py:51-61 | overflow is the OR of the nine flags; `o_computation_done` is state == DONE and `o_ready_for_data` state == IDLE |
| IntProcessingArray.FsmEdge | src/hdl/components/int_processing_array.py:83-97 | each edge's next state and `internal_enable`, as iffs over reset, state, data_valid and all-done |
| IntProcessingArray.ComputingUntilAllDone | src/hdl/components/int_processing_array.py:85-94 | after a start the FSM stays in COMPUTING, with the enable high on the first edge only, until all PEs are done |
| IntProcessingArray.ReachesDone | src/hdl/components/int_processing_array.py:89-97 | on the all-done edge it moves to DONE |
| IntProcessingArray.FlatResults | src/hdl/components/int_processing_array.py:103-106 | slot 3i+j is written with PE (i, j) |
| IntProcessingArray.WriteResults | src/hdl/components/int_processing_array.py:102-108 | the nested write loop succeeds only in the corrected reading, and then fills each slot with the stored form of its PE's result |
| IntProcessingArray.PackNext | src/hdl/components/int_processing_array.py:100-109 | one edge of `pack_output` keeps the register within its width |
| IntProcessingArray.ReadInDone | src/hdl/components/int_processing_array.py:100-109 | as written, `pack_output` raises exactly on an edge with read enable in DONE (item assignment on a Signal); reset clears result_reg and every other edge keeps it, so its fields stay 0 |
| IntProcessingArray.CorrectedReadInDone | src/hdl/components/int_processing_array.py:102-109 | corrected: a read in DONE succeeds, and each field of the port read back as signed 32 bits is pe_results[i][j] |
| IntProcessingArray.ReadFields | src/hdl/components/int_processing_array.py:102-109 | corrected: field 3i+j of the port is the stored form of pe_results[i][j] |
| IntProcessingArray.PortShowsHeldFields | src/hdl/components/int_processing_array.py:99-109 | outside a read in DONE the port shows the register already held, and reset clears both `result_reg`'s fields and the port |
| IntProcessingArray.IntArray.constructor | src/hdl/components/int_processing_array.py:45-48 | state IDLE, enable low, register and port 0 |
| IntProcessingArray.IntArray.Tick | src/hdl/components/int_processing_array.py:83-109 | one rising edge of `fsm` and `pack_output`: it fails exactly when `pack_output` raises, and otherwise both take their next values |
| Fp8ProcessingArray.ShadowSlices | src/hdl/components/fp8_processing_array.py:44-52 | each shadow slice is the element `Element` names: as written the low 7 bits of bus byte m (`[7:0]`, `[15:8]`), corrected the whole byte |
| Fp8ProcessingArray.SevenBits | src/hdl/components/fp8_processing_array.py:47-52 | the MyHDL slice `x[8m+7 : 8m]` is byte m of x without its top bit |
| Fp8ProcessingArray.TopBitDropped | src/hdl/components/fp8_processing_array.py:47-52 | the as-written slice plus the byte's sign bit is the corrected slice, so a negative fp8 operand reaches its PE with its sign dropped |
| Fp8ProcessingArray.PeOperands | src/hdl/components/fp8_processing_array.py:69-137 | PE 2i+j receives A element i and B element j |
| Fp8ProcessingArray.OutputWord | src/hdl/components/fp8_processing_array.py:185-201 | as written the 7-bit slice assignments raise exactly when some c_output is 0x80 or more; corrected they never raise; when no raise happens, byte k of the word is c_outputs[k] |
| Fp8ProcessingArray.SetLatches | src/hdl/components/fp8_processing_array.py:161-179 | each latch is set afterwards exactly when it was set or its PE reports done |
| Fp8ProcessingArray.LatchNext | src/hdl/components/fp8_processing_array.py:140-201 | one edge of `pe_done_latch_logic` raises exactly on a read-enabled edge, without reset or data_valid, whose word has a top bit set (as written only) |
| Fp8ProcessingArray.LatchEdge | src/hdl/components/fp8_processing_array.py:142-201 | reset clears latches, all_pes_done and the register; data_valid clears latches and all_pes_done but keeps the register; otherwise latches OR in mac_done, all_pes_done is the AND of the pre-edge latches, and the register takes the word exactly when read is enabled |
| Fp8ProcessingArray.CorrectedLatchAgrees | src/hdl/components/fp8_processing_array.py:185-201 | the corrected edge never raises, and it equals the as-written edge wherever that does not raise |
| Fp8ProcessingArray.RunTo | src/hdl/components/fp8_processing_array.py:140-201 | the state after n edges, while no edge has raised, is a valid state |
| Fp8ProcessingArray.LatchBit | src/hdl/components/fp8_processing_array.py:150-179 | latch k after one edge: set iff the edge does not clear and it was set or PE k reports done |
| Fp8ProcessingArray.AllDoneBit | src/hdl/components/fp8_processing_array.py:159-182 | all_pes_done after one edge: the edge does not clear and all pre-edge latches are set |
| Fp8ProcessingArray.RunStep | src/hdl/components/fp8_processing_array.py:140-201 | a run of n edges that has not raised is the run of n-1 edges followed by one more edge |
| Fp8ProcessingArray.RunLatch | src/hdl/components/fp8_processing_array.py:161-179 | latch k after the last edge of a run that has not raised |
| Fp8ProcessingArray.DoneSeenStep | src/hdl/components/fp8_processing_array.py:161-179 | PE k was seen done in a window iff it was seen before the last edge or on it |
| Fp8ProcessingArray.LatchHistory | src/hdl/components/fp8_processing_array.py:140-179 | a latch is set exactly when its PE reported done on some edge after the last clear |
| Fp8ProcessingArray.AllPesDoneBarrier | src/hdl/components/fp8_processing_array.py:159-182 | all_pes_done is high exactly when every PE reported done after the last clear and before the last edge (the AND reads the pre-edge latches) |
| Fp8ProcessingArray.OutputIgnoresReadEn | src/hdl/components/fp8_processing_array.py:204-210 | `o_c_matrix` is the output register and `o_mac_done` is all_pes_done, whatever read_en is |
| Fp8ProcessingArray.ReadyLogic | src/hdl/components/fp8_processing_array.py:213-220 | `o_ready_for_new` is the AND of the four ready flags |
| Fp8ProcessingArray.DoneLatches.constructor | src/hdl/components/fp8_processing_array.py:60-66 | latches, all_pes_done and the register start at 0 |
| Fp8ProcessingArray.DoneLatches.Tick | src/hdl/components/fp8_processing_array.py:140-201 | one rising edge as written: it fails exactly where `LatchNext` raises, and otherwise the state is `LatchNext`'s |
| Fp8Add.ExtractComponents | src/hdl/components/fp8_e4m3_add.py:56-84 | sign, exponent and mantissa are the byte's fields; zero, infinity and NaN flags hold exactly for their bit patterns; the extended mantissa is at most 60 |
| Fp8Add.AlignMantissas | src/hdl/components/fp8_e4m3_add.py:86-113 | the larger exponent is the larger of the two, and alignment never increases a mantissa |
| Fp8Add.ShiftRight | src/hdl/components/fp8_e4m3_add.py:102 | x >> k is at most x and is x for k = 0 |
| Fp8Add.AddMantissas | src/hdl/components/fp8_e4m3_add.py:115-128 | equal signs add the aligned mantissas; different signs give their difference, larger minus smaller |
| Fp8Add.NormalizeAndRound | src/hdl/components/fp8_e4m3_add.py:130-220 | the mantissa fits 3 bits, the exponent fits 4 bits for sums below 128, and a zero sum gives zero fields |
| Fp8Add.CarryOut | src/hdl/components/fp8_e4m3_add.py:141-167 | the carry branch yields fields that fit 4 and 3 bits |
| Fp8Add.LeadingOne | src/hdl/components/fp8_e4m3_add.py:169-172 | the position found is a set bit with no set bit above it up to the start, or -1 when there is none |
| Fp8Add.LeadBelowSeven | src/hdl/components/fp8_e4m3_add.py:170-172 | below 128 the leading one is at most bit 6 |
| Fp8Add.LeadingOnePosition | src/hdl/components/fp8_e4m3_add.py:170-172 | the while loop stops at the leading one that `LeadingOne` defines |
| Fp8Add.SumBound | src/hdl/components/fp8_e4m3_add.py:115-128 | the sum of two aligned mantissas is at most 120 |
| Fp8Add.NanResult | src/hdl/components/fp8_e4m3_add.py:224-230 | a NaN operand, or infinities of opposite signs, give 0xFC |
| Fp8Add.InfinityResult | src/hdl/components/fp8_e4m3_add.py:231-236 | otherwise an infinite operand gives that infinity, a's before b's |
| Fp8Add.ZeroPlusZero | src/hdl/components/fp8_e4m3_add.py:237-244 | zero plus zero is -0 only when both are -0 |
| Fp8Add.ZeroIdentity | src/hdl/components/fp8_e4m3_add.py:245-250 | adding a zero to a finite non-zero number returns it bit for bit, on either side |
| Fp8Add.Cancellation | src/hdl/components/fp8_e4m3_add.py:122-124 | a finite non-zero number plus its negation is +0 |
| Fp8Add.Negate | src/utils/fp_defs.py:12 | flipping the sign bit keeps exponent and mantissa |
| Fp8Add.CarryUnreachable | src/hdl/components/fp8_e4m3_add.py:141 | `add_result` never reaches bit 7 or 8, so the carry branch is dead code |
| Fp8Add.SmallBitsClear | src/hdl/components/fp8_e4m3_add.py:141 | a value below 128 has bits 7 and 8 clear |
| Fp8Add.AlignSwap | src/hdl/components/fp8_e4m3_add.py:86-113 | swapping the operands swaps the aligned mantissas and keeps the larger exponent and the difference |
| Fp8Add.AddSwap | src/hdl/components/fp8_e4m3_add.py:115-128 | swapping the operands keeps `add_result`, and `final_sign` unless the sum is zero |
| Fp8Add.Commutative | src/hdl/components/fp8_e4m3_add.py:56-258 | the adder gives the same byte for (a, b) and (b, a), for all inputs |
| Fp8Add.Adder.constructor | src/hdl/components/fp8_e4m3_add.py:260-266 | the registered output starts at 0 |
| Fp8Add.Adder.Tick | src/hdl/components/fp8_e4m3_add.py:260-266 | reset clears the output; otherwise it takes the combinational sum |
| Fp8Mult.DecomposeInputs | src/hdl/components/fp8_e4m3_mult.py:61-83 | sign, exponent and mantissa are the byte's fields, the extended mantissa fits 4 bits, and the zero, infinity and NaN flags hold exactly for their bit patterns |
| Fp8Mult.MulIsProduct | src/hdl/components/fp8_e4m3_mult.py:134 | the repeated-addition product is the product |
| Fp8Mult.ExtProduct | src/hdl/components/fp8_e4m3_mult.py:134 | the product of two extended mantissas fits `product`'s 8 bits |
| Fp8Mult.RegularNext | src/hdl/components/fp8_e4m3_mult.py:114-157 | the regular branch of `multiply_proc` keeps every register within its range and does not touch `output_z` |
| Fp8Mult.TopBit | src/hdl/components/fp8_e4m3_mult.py:137 | `product[7]` is set exactly when product is at least 128 |
| Fp8Mult.NormalizedSlices | src/hdl/components/fp8_e4m3_mult.py:138-145 | `product[7:4]` and `product[6:3]` are the three bits below bit 7 and below bit 6 |
| Fp8Mult.ProductFits | src/hdl/components/fp8_e4m3_mult.py:44 | the product of two 4-bit mantissas is at most 225 |
| Fp8Mult.RegistersNext | src/hdl/components/fp8_e4m3_mult.py:85-157 | one edge writes registers within their ranges, or raises where the first `exp_sum` write leaves [-14, 14) |
| Fp8Mult.EdgeNext | src/hdl/components/fp8_e4m3_mult.py:85-174 | reset clears only `output_z`; otherwise the registers are written and `assemble_output` runs again |
| Fp8Mult.Assembled | src/hdl/components/fp8_e4m3_mult.py:159-174 | settling `output_z` changes nothing but `output_z` |
| Fp8Mult.MultiplyNext | src/hdl/components/fp8_e4m3_mult.py:61-174 | one rising edge on the input bytes: valid registers, and reset clears only `output_z` |
| Fp8Mult.EdgeKeepsConsistent | src/hdl/components/fp8_e4m3_mult.py:159-174 | an edge without reset keeps `output_z` equal to what `assemble_output` computes from the registers |
| Fp8Mult.AssembleReadsItsInputs | src/hdl/components/fp8_e4m3_mult.py:159-174 | `assemble_output` depends only on its five inputs |
| Fp8Mult.EdgeAssembles | src/hdl/components/fp8_e4m3_mult.py:159-174 | when an input of `assemble_output` changed, `output_z` is its new value |
| Fp8Mult.XorSign | src/hdl/components/fp8_e4m3_mult.py:91 | the product's sign is 1 exactly when the operands' sign bits differ |
| Fp8Mult.DecomposedSigns | src/hdl/components/fp8_e4m3_mult.py:64-69 | the decomposed signs differ exactly when the sign bits do |
| Fp8Mult.SignBit | src/hdl/components/fp8_e4m3_mult.py:91 | `z_sign`'s bit is 0 or 1 |
| Fp8Mult.EdgeSign | src/hdl/components/fp8_e4m3_mult.py:91-174 | every non-raising edge sets `z_sign` to the XOR, and every result but NaN carries it |
| Fp8Mult.AssembledSign | src/hdl/components/fp8_e4m3_mult.py:164-174 | every result but NaN carries `z_sign` as its sign bit |
| Fp8Mult.SpecialEdge | src/hdl/components/fp8_e4m3_mult.py:93-113 | an edge on special operands never raises and shows NaN, the signed infinity or the signed zero |
| Fp8Mult.SpecialRegisters | src/hdl/components/fp8_e4m3_mult.py:93-113 | the special branches write valid registers |
| Fp8Mult.SpecialOutput | src/hdl/components/fp8_e4m3_mult.py:159-171 | those registers assemble to the special value |
| Fp8Mult.SignIsXor | src/hdl/components/fp8_e4m3_mult.py:91 | on input bytes: `z_sign` is the XOR of the sign bits, and every result but NaN carries it |
| Fp8Mult.NanProduct | src/hdl/components/fp8_e4m3_mult.py:94-103 | a NaN operand, or infinity times zero, gives 0x7C without a sign |
| Fp8Mult.InfProduct | src/hdl/components/fp8_e4m3_mult.py:104-108 | otherwise infinity times anything gives the signed infinity |
| Fp8Mult.ZeroProduct | src/hdl/components/fp8_e4m3_mult.py:109-113 | otherwise a zero operand gives the signed zero |
| Fp8Mult.RegularEdge | src/hdl/components/fp8_e4m3_mult.py:120-157 | with the registered product below 128, an edge registers the new product and sum and normalises the old product's bits 5..3, writing z fields only inside the exponent window |
| Fp8Mult.EdgeWritesRegisters | src/hdl/components/fp8_e4m3_mult.py:85-157 | an edge without reset raises exactly when the register write does, and otherwise writes those registers |
| Fp8Mult.RegularProduct | src/hdl/components/fp8_e4m3_mult.py:134 | every non-raising edge on regular operands registers their mantissa product |
| Fp8Mult.HeldEdges | src/hdl/components/fp8_e4m3_mult.py:85-174 | n held edges, while none raises, keep a valid state |
| Fp8Mult.HeldEdgesStep | src/hdl/components/fp8_e4m3_mult.py:85-174 | n held edges are one edge followed by n-1 |
| Fp8Mult.EdgePrimes | src/hdl/components/fp8_e4m3_mult.py:136-145 | an edge after the product is registered normalises it |
| Fp8Mult.EdgeSettles | src/hdl/components/fp8_e4m3_mult.py:147-157 | the next edge writes the z fields from it |
| Fp8Mult.SettledIsFixed | src/hdl/components/fp8_e4m3_mult.py:85-174 | no edge with the same inputs changes a settled state |
| Fp8Mult.HeldEdgesSettle | src/hdl/components/fp8_e4m3_mult.py:85-174 | with a product below 128 held, three edges settle the state, which further edges keep |
| Fp8Mult.MantissaProduct | src/hdl/components/fp8_e4m3_mult.py:134 | the registered mantissa product is at most 225 |
| Fp8Mult.HeldRun | src/hdl/components/fp8_e4m3_mult.py:85-174 | n held edges on the input bytes, while none raises, keep a valid state |
| Fp8Mult.SettlesOnHeldInputs | src/hdl/components/fp8_e4m3_mult.py:85-174 | regular operands with product below 128 and sum below 14 show `SettledProduct` after three edges and keep it |
| Fp8Mult.SettledOnBytes | src/hdl/components/fp8_e4m3_mult.py:147-157 | the settled value computed from bytes and from decomposed inputs agree |
| Fp8Mult.SettledOutput | src/hdl/components/fp8_e4m3_mult.py:159-174 | a settled state shows the settled value |
| Fp8Mult.FixedStays | src/hdl/components/fp8_e4m3_mult.py:85-174 | a state one edge keeps stays through any number of edges |
| Fp8Mult.HeldEdgesSplit | src/hdl/components/fp8_e4m3_mult.py:85-174 | n + k held edges are n edges followed by k more |
| Fp8Mult.SettledAfterFive | src/hdl/components/fp8_e4m3_mult.py:85-174 | from the initial state the settled product shows after five edges |
| Fp8Mult.SettleVectors | src/hdl/components/fp8_e4m3_mult.py:85-174 | 1.5 * 2.0 settles to 3.0 (0x44) and 0.5 * 4.0 to 2.0 (0x40) within five edges |
| Fp8Mult.FirstVectorOperands | src/hdl/components/fp8_e4m3_mult.py:120-134 | 0x3C and 0x40 are regular, with product 96, exponent sum 1, settled product 0x44 |
| Fp8Mult.SecondVectorOperands | src/hdl/components/fp8_e4m3_mult.py:120-134 | 0x30 and 0x48 are regular, with product 64, exponent sum 1, settled product 0x40 |
| Fp8Mult.VectorFirstEdges | src/hdl/components/fp8_e4m3_mult.py:85-157 | the first edge from the initial state does not raise on either pair |
| Fp8Mult.DriftStep | src/hdl/components/fp8_e4m3_mult.py:137-141 | as written, with a registered product of 128 or more, each edge sets `exp_sum` to its pre-edge value plus one |
| Fp8Mult.DriftCounts | src/hdl/components/fp8_e4m3_mult.py:131-141 | while such edges do not raise, n of them add n to `exp_sum` |
| Fp8Mult.HeldEdgesRaise | src/hdl/components/fp8_e4m3_mult.py:43-141 | held regular operands with product 128 or more make some edge among the first 29 raise, from any state |
| Fp8Mult.HeldProductRaises | src/hdl/components/fp8_e4m3_mult.py:131-141 | on input bytes: regular operands with mantissa product 128 or more, held 29 edges, make `multiply_proc` raise |
| Fp8Mult.DriftExample | src/hdl/components/fp8_e4m3_mult.py:131-141 | 1.5 * 1.5 has mantissa product 144, and holding it raises within 29 edges |
| Fp8Mult.DriftFirstEdge | src/hdl/components/fp8_e4m3_mult.py:131-134 | the first held edge of 1.5 * 1.5 registers the product 144 |
| Fp8Mult.DriftSecondEdge | src/hdl/components/fp8_e4m3_mult.py:136-141 | the second normalises it |
| Fp8Mult.DriftLaterEdges | src/hdl/components/fp8_e4m3_mult.py:141 | the next two edges each raise `exp_sum` by one |
| Fp8Mult.DriftExampleOutputs | src/hdl/components/fp8_e4m3_mult.py:131-157 | the held 1.5 * 1.5 shows 2.25 (0x41) after the third edge and 4.5 (0x49) after the fourth |
| Fp8Mult.CorrectedRegularNext | src/hdl/components/fp8_e4m3_mult.py:120-157 | corrected: the edge keeps registers in range and `output_z` unchanged |
| Fp8Mult.CorrectedEdgeNext | src/hdl/components/fp8_e4m3_mult.py:85-157 | corrected edge: valid registers |
| Fp8Mult.CorrectedMultiplyNext | src/hdl/components/fp8_e4m3_mult.py:61-174 | corrected edge on the input bytes: valid registers |
| Fp8Mult.CorrectedOnBytes | src/hdl/components/fp8_e4m3_mult.py:120-157 | the corrected product from bytes and from decomposed inputs agree |
| Fp8Mult.CorrectedOutput | src/hdl/components/fp8_e4m3_mult.py:147-174 | the registers a corrected edge writes show the corrected product |
| Fp8Mult.CorrectedRegistersAgree | src/hdl/components/fp8_e4m3_mult.py:120-157 | a corrected edge's registers are a fixed point of the next corrected edge |
| Fp8Mult.CorrectedEdgeSettles | src/hdl/components/fp8_e4m3_mult.py:85-174 | one corrected edge shows the corrected value, which the next edge keeps |
| Fp8Mult.CorrectedSettlesInOneEdge | src/hdl/components/fp8_e4m3_mult.py:85-174 | on input bytes: one corrected edge shows `CorrectedProduct` and further edges keep it |
| Fp8Mult.CorrectedRaisesOnlyAtTop | src/hdl/components/fp8_e4m3_mult.py:43-141 | a corrected edge raises exactly when the sum plus the product's carry reaches 14 |
| Fp8Mult.CorrectedAgreesBelow128 | src/hdl/components/fp8_e4m3_mult.py:143-157 | below 128 the corrected product is what the as-written multiplier settles on |
| Fp8Mult.NormalizedMantissa | src/hdl/components/fp8_e4m3_mult.py:137-145 | the three bits below the product's leading bit bound it from below and the next step from above |
| Fp8Mult.Multiplier.constructor | src/hdl/components/fp8_e4m3_mult.py:37-59 | all registers start at 0 |
| Fp8Mult.Multiplier.Tick | src/hdl/components/fp8_e4m3_mult.py:85-174 | one rising edge: it fails exactly where `MultiplyNext` raises, and otherwise the state is `MultiplyNext`'s |
| Fp8Mac.Decompose | src/hdl/components/fp8_mac.py:53-80 | exponent and mantissa are the byte's fields; the sign is `acc[7:] == 1` as written (the low 7 bits equal 1) and bit 7 corrected; zero and NaN flags hold exactly for their patterns; the extended mantissa has the implicit bit exactly when the exponent is non-zero |
| Fp8Mac.AlignOperands | src/hdl/components/fp8_mac.py:82-114 | a zero operand contributes 0 and the other is shifted left by 3; otherwise the larger exponent's mantissa is shifted left by 3 and the other one right by the difference; all within the signals' widths |
| Fp8Mac.SignedSum | src/hdl/components/fp8_mac.py:139-150 | the sign and magnitude written to final_sign and sum_val represent the signed sum of the aligned operands |
| Fp8Mac.LeadingBit | src/hdl/components/fp8_mac.py:153-161 | the countdown stops at a set bit, or at bit 0, with no set bit above it |
| Fp8Mac.LeadingBitPos | src/hdl/components/fp8_mac.py:153-161 | leading_bit_pos is at most 6 |
| Fp8Mac.FindLeadingBit | src/hdl/components/fp8_mac.py:156-161 | the while loop computes `LeadingBitPos` |
| Fp8Mac.LeadingBitBounds | src/hdl/components/fp8_mac.py:156-161 | below 128 the search finds the leading one: the sum lies in [2^q, 2^(q+1)) |
| Fp8Mac.Normalize | src/hdl/components/fp8_mac.py:163-207 | the normalisation writes valid registers and leaves sum_val and final_sign alone, or raises |
| Fp8Mac.ArithmeticNext | src/hdl/components/fp8_mac.py:134-207 | the arithmetic branch writes valid registers, or raises |
| Fp8Mac.AccumulateNext | src/hdl/components/fp8_mac.py:116-207 | one edge of `accumulate` writes valid registers, or raises |
| Fp8Mac.ControlBranches | src/hdl/components/fp8_mac.py:118-133 | reset restores every register; enable low changes nothing; a NaN stores 0xF9; a zero accumulator takes the product; a zero product keeps the accumulator; each clears overflow |
| Fp8Mac.NanPattern | src/hdl/components/fp8_mac.py:124-126 | the stored 0xF9 is a NaN with sign 1, exponent 15, mantissa 1 |
| Fp8Mac.ArithmeticBranch | src/hdl/components/fp8_mac.py:134-207 | with both operands non-zero numbers the edge is the arithmetic branch on the decomposed operands |
| Fp8Mac.OverflowOnlyWhenClamped | src/hdl/components/fp8_mac.py:173-180 | overflow is set only by the clamp, which stores exponent 14 mantissa 7 with final_sign |
| Fp8Mac.ZeroSumClears | src/hdl/components/fp8_mac.py:169-172 | a zero pre-edge sum stores +0 and clears overflow |
| Fp8Mac.ArithmeticStaysFinite | src/hdl/components/fp8_mac.py:169-207 | the arithmetic branch never stores an exponent of 15 |
| Fp8Mac.NormalizeFinite | src/hdl/components/fp8_mac.py:169-207 | the same for the normalisation alone |
| Fp8Mac.SumRegisters | src/hdl/components/fp8_mac.py:139-150 | the edge registers the signed sum of the aligned operands |
| Fp8Mac.RaisesOnlyOnNegativeShift | src/hdl/components/fp8_mac.py:197-199 | an edge raises exactly when the normal branch shifts sum_val by a negative count |
| Fp8Mac.SmallSumShiftsNegative | src/hdl/components/fp8_mac.py:153-164 | below 128 the search stops below bit 3 exactly for sums below 8 |
| Fp8Mac.UnderflowShiftAtMostFour | src/hdl/components/fp8_mac.py:181-189 | the denormalising shift is at most 4, so the complete-underflow branch is never taken |
| Fp8Mac.SignFromLowBits | src/hdl/components/fp8_mac.py:56 | as written -1.0 (0xB8) reads as positive and 0x01 as negative |
| Fp8Mac.OppositeSignsAdded | src/hdl/components/fp8_mac.py:139-150 | as written 1.0 + (-1.0) adds the magnitudes (sum 72, positive); corrected it gives 56 with sign 1 |
| Fp8Mac.CorrectedSignedSum | src/hdl/components/fp8_mac.py:139-150 | corrected: the registered sum is the signed sum with the operands' real sign bits |
| Fp8Mac.HeldEdges | src/hdl/components/fp8_mac.py:116-207 | n held edges, while none raises, keep a valid state |
| Fp8Mac.OnePlusOneFromReset | src/hdl/components/fp8_mac.py:128-207 | from reset with 1.0 held: the edges store 1.0, then 0 (the normalisation reads the stale sum 0), then 1.0 again |
| Fp8Mac.Accumulator.constructor | src/hdl/components/fp8_mac.py:14-48 | all registers start at 0 |
| Fp8Mac.Accumulator.Tick | src/hdl/components/fp8_mac.py:116-212 | one rising edge: it fails exactly where `AccumulateNext` raises, and otherwise the state is `AccumulateNext`'s; result shows acc |
| FpMac.FormatFor | src/hdl/components/fp_mac.py:31-48 | a format exists exactly for widths 16, 32, 64 and 128 (otherwise the ValueError); 32 gives 8 exponent and 23 mantissa bits |
| FpMac.BiasIsHalfMaxExp | src/hdl/components/fp_mac.py:48 | twice the bias plus one is the all-ones exponent |
| FpMac.Unpack | src/hdl/components/fp_mac.py:92-102 | the sign is the top bit; exponent and mantissa are the slices one bit below the format's fields, the mantissa keeping only MANT_BITS - 1 bits |
| FpMac.RegularExpBelow | src/hdl/components/fp_mac.py:138 | for two regular exponents the sum `a_exp + b_exp - BIAS` fits mul_exp's EXP_BITS + 1 bits from above |
| FpMac.FullProductFits | src/hdl/components/fp_mac.py:131-135 | the product of two mantissas with their hidden bits fits mul_mant's 2 * MANT_BITS + 2 bits |
| FpMac.ProductFields | src/hdl/components/fp_mac.py:113-138 | the values written to mul_exp and mul_mant fit their widths; None is the range error of a negative exponent sum |
| FpMac.NormalizedProduct | src/hdl/components/fp_mac.py:140-148 | the normalised product mantissa fits MANT_BITS + 2 bits |
| FpMac.MultiplyStage | src/hdl/components/fp_mac.py:107-150 | the multiply stage's registers stay within their declared widths whenever it does not raise |
| FpMac.ProductCases | src/hdl/components/fp_mac.py:109-138 | the product sign is the XOR of the signs; a zero exponent gives 0 even beside an infinity; an all-ones exponent gives the all-ones exponent with mantissa 1 exactly for a NaN operand; otherwise the exponent sum minus the bias and the product of the full mantissas |
| FpMac.ProductRaises | src/hdl/components/fp_mac.py:113-138 | with the normalised exponent in range, the stage raises exactly when two regular exponents sum below the bias |
| FpMac.SignedAdd | src/hdl/components/fp_mac.py:226-237 | the sign and magnitude represent the signed sum of the two sign-magnitude operands |
| FpMac.Align | src/hdl/components/fp_mac.py:211-247 | the aligned mantissas fit MANT_BITS + 4 bits and the common exponent is the larger one |
| FpMac.SpecialSum | src/hdl/components/fp_mac.py:174-208 | two special addends give the all-ones exponent and a mantissa of at most 1 |
| FpMac.AddFields | src/hdl/components/fp_mac.py:157-278 | the values written to add_exp and add_mant fit their widths |
| FpMac.SpecialAddends | src/hdl/components/fp_mac.py:174-208 | a NaN addend gives the canonical NaN; opposite infinities give NaN; equal infinities give that infinity; an infinite addend beside a non-special product gives that infinity |
| FpMac.ZeroPlusZeroIsInfinite | src/hdl/components/fp_mac.py:204-208 | as written, a zero addend plus a zero product is an infinity with the product's sign |
| FpMac.OneSpecialAddend | src/hdl/components/fp_mac.py:164-173 | a special addend beside a regular one passes through unchanged |
| FpMac.RegularAddends | src/hdl/components/fp_mac.py:209-278 | two regular addends give the larger exponent and the signed sum of the aligned mantissas |
| FpMac.LeadingZeros | src/hdl/components/fp_mac.py:292-296 | the count stays between its start and add_exp, and stops before add_exp only at a set bit MANT_BITS + 2 |
| FpMac.CountLeadingZeros | src/hdl/components/fp_mac.py:292-296 | the loop's count is LeadingZeros and its mantissa is add_mant shifted left by that count |
| FpMac.LeadingOneForm | src/hdl/components/fp_mac.py:292-296 | the shifted mantissa stays below 2^(MANT_BITS+3) and, when the count stops early, has its leading one at bit MANT_BITS + 2 |
| FpMac.NormalizeResult | src/hdl/components/fp_mac.py:280-311 | as written, result takes only width-bit values and overflow never changes; None is each concat or negative shift that raises |
| FpMac.CorrectedFields | src/hdl/components/fp_mac.py:280-311 | the corrected normalisation keeps the sign |
| FpMac.Word | src/hdl/components/fp_mac.py:283 | a sign, an EXP_BITS field and a MANT_BITS field pack into a width-bit word |
| FpMac.CorrectedNormalize | src/hdl/components/fp_mac.py:280-311 | corrected, the normalisation never raises, keeps result width-bit and leaves sign, exponent and mantissa registers alone |
| FpMac.CorrectedFlags | src/hdl/components/fp_mac.py:281-306 | corrected, overflow is set exactly on a carry out of the mantissa with add_exp + 1 at the all-ones exponent or above, a carry raises the exponent by one, and underflow comes only from a non-zero mantissa that needs renormalising |
| FpMac.CorrectedLeadingOne | src/hdl/components/fp_mac.py:290-311 | corrected, a renormalised mantissa has its leading one at bit MANT_BITS + 2 and the exponent drops by the shift |
| FpMac.AccumulateStage | src/hdl/components/fp_mac.py:153-311 | the accumulate stage keeps add_exp, add_mant and result within their widths |
| FpMac.EdgeNext | src/hdl/components/fp_mac.py:88-311 | one rising edge keeps every register within its declared width |
| FpMac.EdgeIsStages | src/hdl/components/fp_mac.py:88-311 | a non-reset edge is the three stages side by side, each reading the pre-edge registers |
| FpMac.ValidFlags | src/hdl/components/fp_mac.py:104-150 | stage1_valid is set on every non-reset edge; stage2_valid is set once stage1_valid was seen; only reset clears them |
| FpMac.OverflowNeverSet | src/hdl/components/fp_mac.py:281-285 | as written, overflow never changes on an edge that does not raise |
| FpMac.UnderflowOnlyForDenormal | src/hdl/components/fp_mac.py:298-306 | as written, underflow is set only by the denormal branch for a non-zero add_mant |
| FpMac.NoThirdEdge | src/hdl/components/fp_mac.py:298-304 | from reset the first edge always succeeds, but the third edge (or the second) raises whatever the inputs |
| FpMac.CorrectedEdge | src/hdl/components/fp_mac.py:280-311 | corrected, an edge raises only in the multiply stage, and overflow is set exactly on a mantissa carry with the incremented exponent at the all-ones value or above |
| FpMac.Mac.constructor | src/hdl/components/fp_mac.py:5-86 | a unit of a valid format starts from the reset state |
| FpMac.Mac.Tick | src/hdl/components/fp_mac.py:88-311 | ok exactly when the edge does not raise; the registers take the edge's next state, or stay as they were |
| Fp8Converter.ByteString | src/utils/fp8_converter.py:111 | a byte's 8-character string is its sign character, then its 4 exponent and 3 mantissa characters |
| Fp8Converter.MantissaDigits | src/utils/fp8_converter.py:74-82 | the mantissa loop gives n digits and a non-negative remainder, below 1 when the value starts below 1 |
| Fp8Converter.DigitsValue | src/utils/fp8_converter.py:74-82 | the digits and the remainder keep the value: v * 2^n is the digits' binary value plus the remainder |
| Fp8Converter.DigitsAreBinary | src/utils/fp8_converter.py:74-82 | the digits are '0' and '1' characters |
| Fp8Converter.EighthsDigits | src/utils/fp8_converter.py:74-82 | the fraction k/8 gives the three digits of k with nothing left over |
| Fp8Converter.DigitsFromOne | src/utils/fp8_converter.py:74-82 | from a value of at least 1 every digit is '1' and at least 1 is left over |
| Fp8Converter.RoundMantissa | src/utils/fp8_converter.py:84-100 | rounding gives three digits and a biased exponent that only grows, up to 15 |
| Fp8Converter.RoundingCarries | src/utils/fp8_converter.py:84-100 | below exponent 15, rounding adds exactly the rounding bit to the 7-bit code exponent * 8 + mantissa, so a mantissa overflow carries into the exponent |
| Fp8Converter.DoubleUp | src/utils/fp8_converter.py:35-38 | the doubling loop ends at a value of at least 1, below 2 when it started below 2, with the exponent counted down |
| Fp8Converter.ConverterNormalize | src/utils/fp8_converter.py:27-38 | the normalisation leaves the magnitude in [1, 2) |
| Fp8Converter.ConverterNormalizeKeepsValue | src/utils/fp8_converter.py:27-38 | normalisation keeps the value: the input is the magnitude times 2^exponent |
| Fp8Converter.ConverterNormalizeScaled | src/utils/fp8_converter.py:27-38 | normalising v * 2^k with v in [1, 2) gives back (v, k) |
| Fp8Converter.ExponentBelow | src/utils/fp8_converter.py:27-38 | a magnitude below 2^k normalises to an exponent below k |
| Fp8Converter.ExponentAtLeast | src/utils/fp8_converter.py:27-38 | a magnitude of at least 2^k normalises to an exponent of at least k |
| Fp8Converter.Staging | src/utils/fp8_converter.py:40-66 | after the range checks the biased exponent is at most 15 and the scaled magnitude positive, and at least 1 for a non-zero exponent |
| Fp8Converter.FieldBits | src/utils/fp8_converter.py:68-108 | the exponent and mantissa characters are 7 characters |
| Fp8Converter.EncodeMagnitude | src/utils/fp8_converter.py:15-111 | the string of a non-zero finite magnitude has 8 characters and starts with '1' exactly for a negative number |
| Fp8Converter.Conversion | src/utils/fp8_converter.py:1-111 | the result has 8 characters and starts with '1' exactly for a negative number (zero and NaN give '0') |
| Fp8Converter.ConvertToE4m3 | src/utils/fp8_converter.py:1-111 | the method's string is the conversion of its input |
| Fp8Converter.StageMagnitude | src/utils/fp8_converter.py:26-66 | the method's normalisation and range checks give Staging |
| Fp8Converter.NormalizeMagnitude | src/utils/fp8_converter.py:27-38 | the method's two loops give the normalisation |
| Fp8Converter.ExponentAndMantissa | src/utils/fp8_converter.py:68-108 | the method's mantissa extraction, rounding and NaN guard give FieldBits |
| Fp8Converter.MantissaBits | src/utils/fp8_converter.py:74-82 | the method's mantissa loop gives MantissaDigits |
| Fp8Converter.FieldBitsNotNan | src/utils/fp8_converter.py:102-105 | the exponent and mantissa characters are never the NaN pattern 1111111 |
| Fp8Converter.NanPatternOnlyForNan | src/utils/fp8_converter.py:19-24 | the result ends in 1111111 exactly for NaN |
| Fp8Converter.ConversionWellFormed | src/utils/fp8_converter.py:107-111 | the result consists of '0' and '1' characters |
| Fp8Converter.SaturatesFrom448 | src/utils/fp8_converter.py:52-62 | a magnitude of 448 or more saturates to the sign and 1111110 |
| Fp8Converter.StagingNormal | src/utils/fp8_converter.py:40-66 | a normal value v * 2^k stages with biased exponent k + 7 and magnitude v |
| Fp8Converter.FieldBitsExact | src/utils/fp8_converter.py:68-108 | exponent field e with the exact mantissa m/8 gives the strings of e and m, except the NaN pattern |
| Fp8Converter.ExactFieldBits | src/utils/fp8_converter.py:68-108 | digits that leave nothing to round are kept, unless they would complete the NaN pattern |
| Fp8Converter.EncodeNormal | src/utils/fp8_converter.py:15-111 | the normal value (1 + m/8) * 2^(e-7) gives the string of its sign, e and m, including e == 15 with m <= 5 |
| Fp8Converter.EncodeExact | src/utils/fp8_converter.py:68-111 | a magnitude that stages as exponent e with the exact mantissa m/8 is encoded as the strings of e and m |
| Fp8Converter.EncodeStaged | src/utils/fp8_converter.py:68-111 | a magnitude that stages as fields is encoded as its sign character followed by FieldBits |
| Fp8Converter.StagingDenormal | src/utils/fp8_converter.py:43-48 | a denormal m/8 * 2^-6 takes the denormal path and is scaled back to m/8 whenever its biased exponent is below the threshold |
| Fp8Converter.EncodeDenormal | src/utils/fp8_converter.py:43-111 | such a denormal is encoded as exponent 0000 and mantissa m |
| Fp8Converter.StagingUpperDenormal | src/utils/fp8_converter.py:44 | as written, a value in [2^-7, 2^-6) gets biased exponent 0 but is not scaled |
| Fp8Converter.FieldBitsFromOne | src/utils/fp8_converter.py:69-100 | exponent 0 with a magnitude of at least 1 rounds to exponent 1, mantissa 0 |
| Fp8Converter.EncodeUpperDenormal | src/utils/fp8_converter.py:44 | as written, the upper denormals are encoded as exponent 0001, mantissa 000 |
| Fp8Converter.ConversionOfByte | src/utils/fp8_converter.py:15-17 | a decoded finite non-zero byte reaches the converter as its sign and its magnitude |
| Fp8Converter.NormalConverterRoundTrip | src/utils/fp8_converter.py:1-111 | every normal byte (exponent 1..14) converts back to its own bit string |
| Fp8Converter.DenormalConverterRoundTrip | src/utils/fp8_converter.py:43-111 | a denormal byte converts back to itself whenever the denormal path takes it |
| Fp8Converter.UpperDenormalsCollapse | src/utils/fp8_converter.py:44 | as written, the denormals with mantissa 4..7 all convert to the smallest normal of their sign |
| Fp8Converter.CorrectedConverterRoundTrip | src/utils/fp8_converter.py:44 | with the denormal test biased_exponent <= 0, every byte that decodes to a finite value other than -0.0 converts back to itself |
| Fp8Converter.AbsFloat | src/utils/fp8_converter.py:17 | abs of an infinity is +inf, and of a number a non-negative number |
| Fp8Converter.InfinityNeverNormalises | src/utils/fp8_converter.py:31-34 | as written, an infinite input stays +inf and keeps the halving loop's guard true after any number of passes |
| Fp8Converter.CorrectedConversion | src/utils/fp8_converter.py:52-62 | corrected, the result has 8 characters and starts with '1' exactly for a negative number or a negative infinity |
| Fp8Converter.CorrectedSaturates | src/utils/fp8_converter.py:52-62 | corrected, every magnitude of 448 or more, infinities included, saturates to the sign and 1111110 |
| Fp8Converter.CorrectedNanOnlyForNan | src/utils/fp8_converter.py:19-24 | corrected, the result ends in 1111111 exactly for NaN and consists of '0' and '1' characters |
| Fp8Converter.ZeroConverts | src/utils/fp8_converter.py:12-13 | the byte 0x00 converts to eight zeros |
| Fp8Converter.ExponentFifteenFinite | src/utils/fp8_converter.py:50-66 | exponent 15 is finite here: (1 + m/8) * 2^8 with m <= 5 converts to 1111 and mantissa m |
| Fp8Helpers.Magnitude | tests/utils/fp8_helpers.py:17-26 | the magnitude of a finite non-zero byte is positive |
| Fp8Helpers.Fp8ToFloat | tests/utils/fp8_helpers.py:1-27 | NaN exactly for exponent 15 with a non-zero fraction; an infinity exactly for exponent 15 with fraction 0, negative exactly for sign 1; zero exactly for zero fields, -0.0 exactly for 0x80; a non-zero number is negative exactly for sign 1 |
| Fp8Helpers.DecodedMagnitude | tests/utils/fp8_helpers.py:17-27 | a decoded normal value lies in the binade of its exponent field and a denormal one below the smallest normal 2^-6 |
| Fp8Helpers.RoundHalfEven | tests/utils/fp8_helpers.py:59 | Python's round: within 0.5 of the input, and a tie goes to the even integer |
| Fp8Helpers.HalveIntoRange | tests/utils/fp8_helpers.py:49-51 | the halving loop ends below 2, at 1 or more when it started there, with the exponent counted up |
| Fp8Helpers.DoubleIntoRange | tests/utils/fp8_helpers.py:52-54 | the doubling loop stops at exponent -7 or at a value of at least 1, and keeps a value below 2 below 2 |
| Fp8Helpers.Normalize | tests/utils/fp8_helpers.py:47-54 | the two loops leave m in (0, 2) with exp >= -7, and m >= 1 unless exp is -7 |
| Fp8Helpers.HalvingKeepsValue | tests/utils/fp8_helpers.py:49-51 | the halving loop keeps the value m * 2^exp |
| Fp8Helpers.DoublingKeepsValue | tests/utils/fp8_helpers.py:52-54 | the doubling loop keeps the value m * 2^exp |
| Fp8Helpers.NormalizeKeepsValue | tests/utils/fp8_helpers.py:47-54 | normalisation writes the magnitude exactly as m * 2^exp |
| Fp8Helpers.FloatToFp8 | tests/utils/fp8_helpers.py:30-70 | the method's byte is the encoding of its input |
| Fp8Helpers.FindExponent | tests/utils/fp8_helpers.py:47-54 | the method's two loops give Normalize |
| Fp8Helpers.NormalizeNormal | tests/utils/fp8_helpers.py:47-54 | a value v * 2^k with v in [1, 2) and k >= -6 normalises back to (v, k) |
| Fp8Helpers.DoubleToFloor | tests/utils/fp8_helpers.py:52-54 | a value that stays below 1 however far it is doubled stops at exponent -7 |
| Fp8Helpers.OrFields | tests/utils/fp8_helpers.py:70 | OR-ing sign, shifted exponent and fraction packs the byte |
| Fp8Helpers.DecodeFinite | tests/utils/fp8_helpers.py:17-27 | a finite non-zero byte decodes to its signed magnitude |
| Fp8Helpers.NormalRoundTrip | tests/utils/fp8_helpers.py:30-70 | every normal byte survives decoding and re-encoding as written |
| Fp8Helpers.EncodeNormalValue | tests/utils/fp8_helpers.py:62-70 | the normal value of sign s, exponent e and fraction m encodes to those fields |
| Fp8Helpers.OverflowSaturates | tests/utils/fp8_helpers.py:66-68 | magnitudes of 256 and above encode as the infinity of their sign |
| Fp8Helpers.CorrectedRoundTrip | tests/utils/fp8_helpers.py:59-70 | the corrected encoding restores every byte that is neither NaN nor -0.0 |
| Fp8Helpers.RoundTripSpecial | tests/utils/fp8_helpers.py:32-39 | zero and the two infinities round-trip under either encoding |
| Fp8Helpers.ZeroRoundTrip | tests/utils/fp8_helpers.py:32-33 | 0x00 round-trips under either encoding |
| Fp8Helpers.InfinityRoundTrip | tests/utils/fp8_helpers.py:9-11 | the two infinities round-trip under either encoding |
| Fp8Helpers.CorrectedRoundTripDenormal | tests/utils/fp8_helpers.py:56-60 | corrected, every denormal byte round-trips |
| Fp8Helpers.CorrectedEncodeDenormalValue | tests/utils/fp8_helpers.py:56-60 | corrected, the denormal value of sign s and fraction m encodes to s * 128 + m |
| Fp8Helpers.CorrectedRoundTripNormal | tests/utils/fp8_helpers.py:62-70 | corrected, every normal byte round-trips |
| Fp8Helpers.CorrectedEncodeNormalValue | tests/utils/fp8_helpers.py:62-70 | corrected, the normal value of sign s, exponent e and fraction m encodes to those fields |
| Fp8Helpers.DenormalNormalize | tests/utils/fp8_helpers.py:47-54 | a denormal value m/8 * 2^-6 normalises to (m/4, -7), one doubling too many |
| Fp8Helpers.LostCarryExample | tests/utils/fp8_helpers.py:64-70 | as written, 1.9375 encodes to 0x38 (1.0) because the rounded fraction 8 is OR-ed into the exponent; corrected it encodes to 0x40 (2.0) |
| Fp8Helpers.DenormalReencoded | tests/utils/fp8_helpers.py:57-60 | as written, the denormal 0x04 re-encodes as 0x08 |
| Fp8Helpers.DenormalDoubled | tests/utils/fp8_helpers.py:59 | 0x08 decodes to twice the value of 0x04 |
| MatrixVectors.Matrix.Column | tests/utils/hdl_bit_vector_helpers.py:40 | column j has one entry per row, entry i being A[i][j] |
| MatrixVectors.Naturals | tests/utils/hdl_bit_vector_helpers.py:47 | the non-negative entries are kept one for one |
| MatrixVectors.ExtractMatrixVectors | tests/utils/hdl_bit_vector_helpers.py:11-62 | the method's two loops return the packed A columns and B rows, or None where a slice assignment raises |
| MatrixVectors.PackVector | tests/utils/hdl_bit_vector_helpers.py:42-48 | the inner loop succeeds exactly for a packable vector and then returns its bus |
| MatrixVectors.PackedFields | tests/utils/hdl_bit_vector_helpers.py:42-48 | the bus of a packable vector has len * w bits and its field k, bits [(k+1)*w : k*w], holds entry k |
| MatrixVectors.VectorLayout | tests/utils/hdl_bit_vector_helpers.py:37-62 | there are cols(A) A-vectors of rows(A)*w bits and rows(B) B-vectors of cols(B)*w bits; field i of A-vector j is A[i][j] and field j of B-vector i is B[i][j] |
| MatrixVectors.ArrayReceivesOperands | tests/utils/hdl_bit_vector_helpers.py:37-62 | lane i of A-vector k is A[i][k] and lane j of B-vector k is B[k][j], the k-th terms of entry (i, j) of A * B |
| MatrixVectors.FittingMatricesPack | tests/utils/hdl_bit_vector_helpers.py:11-62 | matrices of matching shapes whose entries all fit in w bits pack without error |
| MatrixVectors.OutOfRangeRaises | tests/utils/hdl_bit_vector_helpers.py:47 | an entry that is negative or does not fit in w bits makes the slice assignment raise |
| Im2col.Zeros | scripts/im2_column_example.py:13 | np.zeros((h, w)) is an h x w array of zeros |
| Im2col.FlattenAt | scripts/im2_column_example.py:47 | flattening an h x w array gives h * w elements, entry (a, b) at position a * w + b |
| Im2col.FlattenRows | scripts/im2_column_example.py:122 | flattening arrays of n columns keeps n columns |
| Im2col.Reshape | scripts/im2_column_example.py:130 | reshaping h * w elements gives an h x w array |
| Im2col.ReshapeFlatten | scripts/im2_column_example.py:122-130 | reshaping undoes flattening |
| Im2col.DotSymmetric | scripts/im2_column_example.py:125 | the dot product is symmetric |
| Im2col.Column | scripts/im2_column_example.py:47 | column c of an array has one entry per row, entry r being m[r][c] |
| Im2col.VecMat | scripts/im2_column_example.py:125 | np.dot(v, m) has one element per column of m, element c being v dotted with column c |
| Im2col.SetColumn | scripts/im2_column_example.py:47 | m[:, c] = v replaces column c by v and leaves every other entry alone |
| Im2col.OutDim | scripts/im2_column_example.py:10-11 | the output dimension (n - k) // s + 1 is at least 1 exactly when the kernel fits in the image |
| Im2col.StrideFits | scripts/im2_column_example.py:10-11 | output position i exists exactly when its window i * s .. i * s + k - 1 ends inside the image |
| Im2col.Block | scripts/im2_column_example.py:19-21 | the slice m[r0 : r0 + h, c0 : c0 + w] is h x w with entry (a, c) = m[r0 + a][c0 + c] |
| Im2col.PatchAt | scripts/im2_column_example.py:45-47 | the flattened patch at output position (i, j) has kh * kw elements |
| Im2col.PatchEntry | scripts/im2_column_example.py:45-47 | element a * kw + b of that patch is image pixel (i*s + a, j*s + b), inside the image |
| Im2col.Convolution | scripts/im2_column_example.py:4-25 | the convolution has shape output_h x output_w |
| Im2col.DirectConvolution | scripts/im2_column_example.py:4-25 | direct_convolution's loops compute the convolution |
| Im2col.DirectRow | scripts/im2_column_example.py:17-23 | the inner loop fills output row i and leaves the other rows alone |
| Im2col.PatchGrid | scripts/im2_column_example.py:42-45 | the patches form an output_h x output_w grid |
| Im2col.PatchColumns | scripts/im2_column_example.py:42-48 | im2col visits output_h * output_w patches |
| Im2col.PatchColumnsAt | scripts/im2_column_example.py:41-48 | patch number i * ow + j in the visiting order is the patch at output position (i, j) |
| Im2col.Im2colMatrix | scripts/im2_column_example.py:28-50 | im2col returns a (kh * kw) x (oh * ow) array whose column c is the c-th patch, flattened row-major |
| Im2col.FillPatchRow | scripts/im2_column_example.py:43-48 | the inner loop makes the patches starting on image row i columns ii * ow to ii * ow + ow - 1 |
| Im2col.ConvolutionIm2col | scripts/im2_column_example.py:114-132 | the flattened kernel times the im2col matrix, reshaped, is the direct convolution |
| Im2col.Im2colProductAt | scripts/im2_column_example.py:119-130 | the kernel dotted with column i * ow + j is output entry (i, j) of the direct convolution |
| Im2col.PadPlane | scripts/im2_column_example.py:85 | a padded channel is (h + 2 ph) x (w + 2 pw), the channel inside and zero around it |
| Im2col.Pad | scripts/im2_column_example.py:85 | np.pad keeps the channel count and gives each channel the padded shape |
| Im2col.PadEntry | scripts/im2_column_example.py:85 | entry (c, y, x) of the padded array is the channel's pixel (y - ph, x - pw) inside and 0 around it |
| Im2col.PadNothing | scripts/im2_column_example.py:84-87 | with both paddings zero the padding would change nothing, so skipping it is immaterial |
| Im2col.Padded | scripts/im2_column_example.py:84-87 | padded_data has the channel count of the input and the padded shape |
| Im2col.PaddedEntry | scripts/im2_column_example.py:84-87 | entry (c, y, z) of padded_data, padded or not, is the pixel inside and 0 in the padding |
| Im2col.PaddedAtInput | scripts/im2_column_example.py:104-108 | the position tap (a, b) reads at output (i, j) lies in the padded array and holds the input pixel or 0 |
| Im2col.GeneralRow | scripts/im2_column_example.py:99-109 | row (c, a, b) has one element per output position |
| Im2col.GeneralRowAt | scripts/im2_column_example.py:101-109 | element i * ow + j of row (c, a, b) is padded_data[c, i * S_h + a, j * S_w + b] |
| Im2col.ChannelRows | scripts/im2_column_example.py:94-95 | the taps of one channel form a kh x kw grid of rows |
| Im2col.ChannelBlock | scripts/im2_column_example.py:94-97 | the rows of one channel form a (kh * kw) x (oh * ow) block |
| Im2col.ChannelBlocks | scripts/im2_column_example.py:93-97 | there is one block per channel, in channel order |
| Im2col.GeneralRows | scripts/im2_column_example.py:90-111 | the rows of the general matrix form a (C * kh * kw) x (oh * ow) array |
| Im2col.GeneralRowsAt | scripts/im2_column_example.py:97 | row c * kh * kw + a * kw + b of the general matrix is row (c, a, b) |
| Im2col.GeneralRowsEntry | scripts/im2_column_example.py:97-108 | entry (c * kh * kw + a * kw + b, i * ow + j) is the padded value tap (a, b) of channel c sees at output position (i, j) |
| Im2col.Im2colGeneralSpec | scripts/im2_column_example.py:56-111 | im2col_general returns a (C * kh * kw) x (out_h * out_w) array |
| Im2col.Im2colGeneralEntry | scripts/im2_column_example.py:56-111 | entry (row, col) of im2col_general's result is the input pixel tap (a, b) of channel c sees at output (i, j), or 0 in the padding |
| Im2col.Im2colGeneralAgrees | scripts/im2_column_example.py:28-111 | on one channel, with equal strides and no padding, im2col_general returns im2col's matrix: column c is the c-th patch |
| Im2col.GeneralColumn | scripts/im2_column_example.py:28-111 | column i * ow + j of that matrix is patch (i, j) |
| Im2col.PatchPixelInside | scripts/im2_column_example.py:104-105 | tap (a, b) of patch (i, j) lies inside the image |
| Im2col.GeneralEntryIsPatch | scripts/im2_column_example.py:28-111 | entry (a * kw + b, i * ow + j) of the general matrix is element a * kw + b of patch (i, j) |
| Im2col.Im2colGeneral | scripts/im2_column_example.py:56-111 | the five nested loops compute Im2colGeneralSpec |
| Im2col.FillChannels | scripts/im2_column_example.py:93-109 | the channel loop over the padded planes computes the general rows |
| Im2col.FillChannel | scripts/im2_column_example.py:94-109 | the k_h loop makes rows c * kh * kw .. c * kh * kw + kh * kw - 1 the channel's taps and keeps the earlier rows |
| Im2col.FillTaps | scripts/im2_column_example.py:95-109 | the k_w loop fills kernel row a of channel c and keeps the earlier rows |
| Im2col.FillGeneralRow | scripts/im2_column_example.py:97-109 | the two inner loops set row row_idx to row (c, a, b) and leave the others alone |
| Im2col.FillGeneralSegment | scripts/im2_column_example.py:101-109 | the innermost loop writes output row i of tap (c, a, b) to columns i * ow .. i * ow + ow - 1 |
| Im2colTiled.PrefixLength | scripts/im2_column_example.py:179-181 | x[:k] keeps the first min(k, n) elements for k >= 0, and never more than n |
| Im2colTiled.AssignBlock | scripts/im2_column_example.py:179-181 | a slice assignment that succeeds keeps the output's shape |
| Im2colTiled.AssignBlockSpec | scripts/im2_column_example.py:179-181 | the assignment succeeds exactly when numpy can broadcast the kept source rows and columns onto the target slice; then the slice takes the source values (repeated along an axis where one is kept) and every other entry is kept |
| Im2colTiled.TileEnd | scripts/im2_column_example.py:156-158 | a tile ends at most at the image edge, and not before its start |
| Im2colTiled.OutEnd | scripts/im2_column_example.py:173-174 | the last output row or column a tile is copied to stays inside the output |
| Im2colTiled.PlaceTile | scripts/im2_column_example.py:171-181 | copying a tile's output keeps the output's shape |
| Im2colTiled.PlaceTileIs | scripts/im2_column_example.py:171-181 | the placement is the slice assignment with the four bounds of lines 171-174 |
| Im2colTiled.TileStep | scripts/im2_column_example.py:154-181 | one tile keeps the output's shape |
| Im2colTiled.RowOfTiles | scripts/im2_column_example.py:153-181 | the inner loop keeps the output's shape |
| Im2colTiled.TilesFrom | scripts/im2_column_example.py:152-181 | the outer loop keeps the output's shape |
| Im2colTiled.RowOfTilesStep | scripts/im2_column_example.py:153 | one turn of the inner loop is one tile step, then the next tile column |
| Im2colTiled.TilesFromStep | scripts/im2_column_example.py:152 | one turn of the outer loop is one row of tiles, then the next tile row |
| Im2colTiled.RowSkips | scripts/im2_column_example.py:163-165 | tiles smaller than the kernel are skipped and leave the output unchanged |
| Im2colTiled.TilesSkip | scripts/im2_column_example.py:163-165 | tile rows shorter than the kernel leave the output unchanged |
| Im2colTiled.UnskippedStep | scripts/im2_column_example.py:160-181 | a tile that is not skipped is convolved and placed |
| Im2colTiled.AsWrittenStep | scripts/im2_column_example.py:160-181 | as written, the tile's output goes to rows max(0, (start - kh + 1) // stride) up to min(output_h, (end - kh + 1) // stride), and likewise for columns |
| Im2colTiled.TileConvOut | scripts/im2_column_example.py:161-168 | with stride 1, output (y - tr, x - tc) of a tile is output (y, x) of the whole image |
| Im2colTiled.SingleTile | scripts/im2_column_example.py:135-183 | when the whole image fits in one tile, the tiled convolution is the convolution |
| Im2colTiled.ScriptExample | scripts/im2_column_example.py:135-183 | the script's 16 x 16 example with tiles of 14 is one tile and matches the direct convolution |
| Im2colTiled.PlacedEntry | scripts/im2_column_example.py:179-181 | copying an rh x rw block sets the block's entries and keeps every other entry |
| Im2colTiled.CorrectedStep | scripts/im2_column_example.py:154-168 | corrected, a tile that is not skipped has its output at rows tr to min(tr + t, output_h) and columns tc to min(tc + t, output_w) |
| Im2colTiled.CorrectedPlacement | scripts/im2_column_example.py:171-181 | corrected, the tile's output goes to the rows and columns of its own first patch |
| Im2colTiled.CorrectedEntry | scripts/im2_column_example.py:171-181 | corrected, each entry a tile writes is the convolution's entry there |
| Im2colTiled.TileStepCorrected | scripts/im2_column_example.py:154-181 | corrected, with stride 1, a tile step writes the convolution on the tile's own output positions and keeps every other entry |
| Im2colTiled.RowCorrected | scripts/im2_column_example.py:153-181 | corrected, the rest of a tile row fills its band of output rows with the convolution from column tc on |
| Im2colTiled.TilesCorrected | scripts/im2_column_example.py:152-181 | corrected, the tile rows from tr on fill every output row from tr on with the convolution |
| Im2colTiled.TiledCorrect | scripts/im2_column_example.py:135-183 | corrected, with stride 1 and any positive tile size, the tiled convolution is the convolution |
| Im2colTiled.PairSum | scripts/im2_column_example.py:4-25 | a one-column image under the kernel [[1], [1]] gives row i plus row i + 1 |
| Im2colTiled.Pick | scripts/im2_column_example.py:4-25 | a one-column image under the kernel [[1]] with stride s gives row i * s |
| Im2colTiled.SetTop | scripts/im2_column_example.py:179-181 | out[0:1, 0:1] = [[v]] on a 2 x 1 array sets its top entry |
| Im2colTiled.SetBoth | scripts/im2_column_example.py:179-181 | out[0:2, 0:1] = [[v]] on a 2 x 1 array repeats v over both entries |
| Im2colTiled.OverlapConvolution | scripts/im2_column_example.py:4-25 | the convolution of the 3 x 1 example is [[3], [5]] |
| Im2colTiled.PairTile | scripts/im2_column_example.py:161-168 | the tile of rows r and r + 1 under [[1], [1]] has the one output row[r] + row[r + 1] |
| Im2colTiled.OverlapFirstTile | scripts/im2_column_example.py:152-181 | in the example, the first tile goes to output row 0 |
| Im2colTiled.OverlapSecondTile | scripts/im2_column_example.py:152-181 | in the example, the second tile's one output is repeated over output rows 0 and 1 |
| Im2colTiled.OverlapTileOutputs | scripts/im2_column_example.py:168 | the two tiles of the example output 3 and 5 |
| Im2colTiled.OverlapCounterexample | scripts/im2_column_example.py:171-179 | as written, the 3 x 1 example gives [[5], [5]] where the convolution is [[3], [5]] |
| Im2colTiled.TiledConvolution | scripts/im2_column_example.py:135-183 | the method's two loops compute the as-written tiled result |
| Im2colTiled.TileRow | scripts/im2_column_example.py:153-181 | the inner loop computes one row of tiles |
| Im2colTiled.ProcessTile | scripts/im2_column_example.py:154-181 | the loop body computes one tile step |

## Left out

- Sub-units whose source is not in the repository are free per-tick inputs: `processing_element`, imported by both 3x3 arrays; the MAC that `fp8_pe` wraps; and the multiplier that drives `fp8_mac`'s `product`. Their results, done and overflow flags are inputs of each edge.
- `src/hdl/components/fp8_pe.py` is not part of this model. Its logic is an AND of two handshake signals plus forwarding, around a MAC that is in no file.
- The `pe(...)` call in `processing_array.py` uses keyword names that `pe.py` does not declare. Only the array's slicing, concatenation and OR reduction are modelled.
- Each exception MyHDL raises is a `None` result or `ok == false`. The model does not describe the exception's type, message or traceback.
- The `ResetSignal` checks and wrapping are not modelled: processing_array_3x3.py:52-53, processing_array.py:37-38, pe.py:37-38, mac.py:20-29 and reg.py:21-30. Reset is a boolean input of every edge.
- `@block`, `instances()`, delta-cycle scheduling and the resolution of multiple drivers are not modelled. One clock domain is one sequential step that commits all registers together. Combinational blocks that read a signal they drive are listed below, under the members that model them. The multiplier's `output_z` has two drivers. The model lets the reset branch write 0 to it, and otherwise lets `assemble_output` recompute it whenever one of its inputs changed.
- Python floats are Dafny `real` (with explicit NaN, ±inf and -0 cases where the source reaches them). The codecs and the converter only halve and double finite values, and the im2col inputs are integer-valued arrays, so no rounding of binary floating point is modelled.
- The converter's explanation strings and its interactive `main()` (src/utils/fp8_converter.py:113-171) are console text, and are not modelled. The same holds for `print_bit_vector`, the `__main__` demo blocks and the printing in `im2_column_example.main`.
- Fp8Add.ExtractComponents: the source's `extract_components` (src/hdl/components/fp8_e4m3_add.py:56-84) reads `a_exp`, `a_man`, `b_exp` and `b_man`, which it also drives. MyHDL's `always_comb` refuses a signal that is both read and driven by the block, as an inout, so the adder as written does not elaborate. The model is of the evidently intended combinational values: each flag is computed from the fields just extracted.
- Fp8Add.AlignMantissas: the same holds for `exp_diff` in `align_mantissas` (src/hdl/components/fp8_e4m3_add.py:86-113). The model uses the freshly computed difference.
- Fp8Add.NormalizeAndRound: the same holds for `final_exp` in `normalize_and_round` (src/hdl/components/fp8_e4m3_add.py:130-220). The model uses the freshly computed exponent.
- Fp8Mult.DecomposeInputs: the same holds for the fields `decompose_inputs` drives and then reads (src/hdl/components/fp8_e4m3_mult.py:61-83), so the multiplier as written does not elaborate either. The model computes the flags from the fields just extracted.
- Fp8Mac.Decompose: the same holds for `acc_exp`, `acc_man`, `prod_exp` and `prod_man` in `decompose_acc_product` (src/hdl/components/fp8_mac.py:53-80). The model computes the flags from the fields just extracted.
- IntProcessingArray.AggregateFlags: `aggregate_flags` (src/hdl/components/int_processing_array.py:51-61) reads the nested lists `pe_dones` and `pe_overflows`. MyHDL's `always_comb` infers its sensitivity list only from signals and flat lists of signals. The block is therefore re-run only when `state` changes, and an overflow that a PE raises while the state holds is not shown until the next state change. The model states the evidently intended OR of the current flags on every edge, not this refresh-on-state-change behaviour.
- Fp8Converter.Conversion: requires a finite input, because the source's halving loop (src/utils/fp8_converter.py:31-34) never ends on ±inf. `InfinityNeverNormalises` states that non-termination, and `CorrectedConversion` covers ±inf by saturating.
- Fp8Converter.ConvertToE4m3: requires a finite input, for the same reason as `Conversion`.
- Im2col.DirectConvolution: requires a stride of at least 1 and a kernel at most one stride larger than the image. A stride of 0 raises ZeroDivisionError in the source. A larger kernel makes `np.zeros` raise ValueError on a negative size. The empty output that a kernel up to one stride larger gives is modelled.
- Im2col.ConvolutionIm2col: same shape requirement as `DirectConvolution`.
- Im2col.Im2colGeneral: same shape requirement, per spatial dimension. It also requires at least one channel and a kernel of at least 1 x 1, and takes padding as natural numbers. The source accepts C == 0 or a kernel dimension of 0, and returns a matrix with no rows. A negative padding skips `np.pad` yet still enters the output size. These degenerate shapes are not modelled.
- Im2colTiled.TiledConvolution: same shape requirement. A tile size of 0, which `range` refuses, is modelled as `None`.
- Reg.Register.Tick: requires `d` to fit the register's width. The source's `d` is a signal of that width, so other values cannot occur.
- Pe.ProcessingElement.Tick: requires `a_in` and `b_in` to fit `data_width`, for the same reason.
- MatrixVectors.MatrixVectors: a shape mismatch (cols(A) != rows(B)) or an element that does not fit its lane gives `None`. The model does not tell the source's assertion apart from its intbv range error.
- `tests/utils/hdl_test_utils.py` (clock generator, VCD tracing, file handling) and `scripts/convert_mac_to_verilog.py` (Verilog generation) are simulation and tooling plumbing, and are not part of this model.
- The unit tests under `tests/unit/` are not modelled. Several of them import names that no file defines, or call `pe` with a different signature.
- Integer widths are modelled exactly where the source declares them. Free inputs wider than their signal are excluded by the `requires` above.

## Findings

| source | as written | input that shows it | evidently intended | confidence | as-written member | corrected member |
|---|---|---|---|---|---|---|
| tests/utils/fp8_helpers.py:64-70 | the rounded fraction is OR-ed into the exponent field, so a fraction that rounds up to 8 loses its carry | 1.9375 encodes to 0x38 (1.0) | 0x40 (2.0), with the carry into the exponent | high, not executed | Fp8Helpers.LostCarryExample | Fp8Helpers.CorrectedRoundTrip |
| tests/utils/fp8_helpers.py:57-60 | denormals are normalised and encoded as normals one binade too high | the byte 0x04 (2^-7) re-encodes to 0x08 (2^-6) | every finite byte encodes back to itself | high, not executed | Fp8Helpers.DenormalReencoded | Fp8Helpers.CorrectedRoundTrip |
| src/utils/fp8_converter.py:44 | `biased_exponent < 0` sends exponent 0 down the normal path | the byte 0x04 (2^-7) converts to "00001000" | "00000100", the denormal it came from | high, not executed | Fp8Converter.UpperDenormalsCollapse | Fp8Converter.CorrectedConverterRoundTrip |
| src/utils/fp8_converter.py:31-34 | the loop `while normalized_num >= 2` halves ±inf forever | float('inf') | saturation to the largest finite value of the sign | medium, not executed | Fp8Converter.InfinityNeverNormalises | Fp8Converter.CorrectedSaturates |
| scripts/im2_column_example.py:171-179 | each tile's output is written at a row offset that counts the kernel overlap, kernel - 1 rows too early | 3 x 1 image [1, 2, 3], 2 x 1 kernel of ones, stride 1, tile 1: [[5], [5]] | the convolution [[3], [5]] | high, not executed | Im2colTiled.OverlapCounterexample | Im2colTiled.TiledCorrect |
| src/hdl/components/fp8_e4m3_mult.py:131-141 | normalisation reads the pre-edge `exp_sum` and adds 1 on every edge while bit 7 of `product` is set | 1.5 * 1.5 held: 0x41 after the third edge, 0x49 after the fourth, then a range error within 29 edges | the result settles to 0x41 (2.25) and stays | high, not executed | Fp8Mult.HeldProductRaises | Fp8Mult.CorrectedSettlesInOneEdge |
| src/hdl/components/fp8_mac.py:56 | `acc[FP8_WIDTH-1:]` takes bits 6..0, and the sign is "those bits equal 1" | 0xB8 (-1.0) reads as positive, 0x01 as negative | the sign is bit 7 | high, not executed | Fp8Mac.SignFromLowBits | Fp8Mac.CorrectedSignedSum |
| src/hdl/components/fp_mac.py:280-304 | the overflow and renormalising branches pass plain integers to `concat`, and the denormal branch shifts by `add_exp - 1` = -1 after reset | any inputs: the third edge after reset raises, and `overflow` is never set | sized exponent, guarded shift, and `overflow` set when the exponent overflows | high, not executed | FpMac.NoThirdEdge | FpMac.CorrectedEdge |
| src/hdl/components/fp8_processing_array.py:47-52 | `[7:0]`-style slices take 7 bits, so an operand's sign bit is dropped on the way in, and a result of 0x80 or more raises on the way out | a = 0xC0 (-2.0) reaches PE 0 as 0x40 (2.0) | the whole byte in each lane | high, not executed | Fp8ProcessingArray.TopBitDropped | Fp8ProcessingArray.CorrectedLatchAgrees |
| src/hdl/components/processing_array_3x3.py:71-78 | the 7-bit slices drop each element's top bit, and raise when the low seven bits are 0x7F | the element 0x80 (-128) reaches the PE as 0, and 0xFF (-1) raises | each 8-bit lane read as a signed byte | high, not executed | ProcessingArray3x3.SlicesAsWritten | ProcessingArray3x3.SignedSlicesAgree |
| src/hdl/components/int_processing_array.py:106 | the result is written by item assignment on the Signal `result_reg`, which MyHDL refuses | any read in DONE raises | the nine 32-bit results packed into `o_result_matrix` | high, not executed | IntProcessingArray.ReadInDone | IntProcessingArray.CorrectedReadInDone |
| src/hdl/components/processing_array_3x3.py:304-312 | a negative PE result is written into an unsigned 32-bit slice | a dot product of -1 in PE 0 raises on the load edge | the two's-complement pattern of the result | medium, not executed | ProcessingArray3x3.MinusOneRaises | ProcessingArray3x3.LoadCorrected |
