# LLAC tooling and generated I2S front end, modelled in Dafny

This project models the Python tooling layer of the LLAC repository and the
clocked SystemVerilog that one of its scripts emits. It covers:

- **Interpreter helpers** (`Src/Allocator/Interpreter/helpers.py`): padding two
  lists to the same length, pairing up a sequence, and caret underlines under
  matched substrings.
- **ExtendedEnum and BITFIELD machinery** (`Src/Allocator/Interpreter/dataclass.py`):
  - field and value listings, with Python's rule that an enum member whose
    value repeats an earlier one is an alias and is not iterated;
  - lookup by value and by case-insensitive name;
  - the metaclass `__contains__`;
  - `_process_member_defs`, which writes the bit-field members into the class
    dictionary. It is modelled as a class that owns that dictionary.
- **Command-line validators** in both `argparse_helpers.py` copies:
  - the integer, boolean and bit-width parsers;
  - the `str2num` dispatch;
  - `num_in_range` and `get_non_flags`;
  - `bools2bitstr`, modelled as a method with a loop, tied to the bit-field
    numbering.
- **HexLutManager's integer path** (`Src/RTL/Scripts/hex_utils.py`):
  - byte-order selection and fixed-width encoding;
  - hex text and its checks;
  - `.hex` file names;
  - skipping the header block when a LUT file is read back.
- **The source-header writers** (both `write_file_header.py` copies):
  - the white/black-list path filter;
  - license detection;
  - module classification and metadata;
  - the header template;
  - its Python-docstring and comment renderings;
  - what `write_headers_to_files` does to one file.
- **The `.veo` unwrapper** (both `unwrap_veo.py` copies):
  - the argument validators;
  - the `strip('.veo')` stem;
  - the stable sort and group-by of port records, and the emitted module text.
- **The I2S mono/stereo wrapper generators** (both `i2s_mono_stereo_wrapper.py`
  copies):
  - `main`'s width reconciliation and keyword forwarding;
  - `generate_header_file`;
  - the register-transfer behaviour of the emitted SystemVerilog. These are
    the `i2s_receiver` and the per-channel ring buffer of `buf_audio_in`, and
    the receiver of `audio_processor`. They are modelled as classes whose
    fields are the registers, with one method per clock edge, each proved
    equal to a step function on a state value.

Inputs that cannot be seen from the code are parameters:

- the host byte order (`hostLittle`);
- the set of existing files;
- a file's text and its extracted docstring;
- `textwrap.fill` (`fill`);
- the numpy long-double platform (`FloatPlatform`);
- the parsed port records of a `.veo` file;
- the current directory.

Python exceptions become `Err` values of a `Result` type, with the exception
class as the error.

Files:

| file | module | models |
|---|---|---|
| common.dfy | `Common` | Option/Result, Python string helpers (split/join, find, strip, case), powers of two |
| helpers.dfy | `InterpreterHelpers` | Src/Allocator/Interpreter/helpers.py |
| extended_enum.dfy | `ExtendedEnums` | ExtendedEnum in Src/Allocator/Interpreter/dataclass.py |
| bitfield.dfy | `BitFieldEnums` | `_BitFieldEnumMeta` in the same file |
| rtl_argparse.dfy | `RtlArgparse` | Src/RTL/Scripts/argparse_helpers.py |
| scripts_argparse.dfy | `ScriptsArgparse` | Src/Scripts/argparse_helpers.py |
| hex_utils.dfy | `HexUtils` | Src/RTL/Scripts/hex_utils.py |
| file_headers.dfy | `FileHeaders` | what both write_file_header.py copies share |
| scripts_file_header.dfy | `ScriptsFileHeader` | Src/Scripts/write_file_header.py |
| rtl_file_header.dfy | `RtlFileHeader` | Src/RTL/Scripts/write_file_header.py |
| unwrap_veo.dfy | `UnwrapVeo` | both unwrap_veo.py copies (they agree on everything modelled) |
| i2s_cli.dfy | `I2sCli` | the command line shared by both i2s_mono_stereo_wrapper.py copies |
| i2s_serial.dfy | `I2sSerial` | serial I2S words as bit-clock edges |
| rtl_scripts_i2s.dfy | `RtlScriptsI2s` | Src/RTL/Scripts/i2s_mono_stereo_wrapper.py |
| rtl_in_i2s.dfy | `RtlInI2s` | Src/RTL/In/i2s_mono_stereo_wrapper.py |

Where the documentation and the code disagree, the model follows the code:

- The BITFIELD docstring (`Src/Allocator/Interpreter/dataclass.py:298-306`)
  numbers the members least-significant first. `__new__` actually uses
  most-significant first.
- `hex_to_dtype`'s docstring says it "assumes big-endian". `read_lut_from_hex`
  defaults to the native order, while `write_lut_to_hex` defaults to big
  endian (`HexUtils.DefaultOrdersDisagree`).

## Model

| member | source | states |
|---|---|---|
| InterpreterHelpers.Pairwise | Src/Allocator/Interpreter/helpers.py:73-75 | floor(n/2) pairs, the k-th being (x[2k], x[2k+1]); an odd trailing element is dropped |
| InterpreterHelpers.PadListsToSameLength | Src/Allocator/Interpreter/helpers.py:156-184 | ValueError exactly when either list is empty; otherwise both results have the longer length, each input is a prefix of its result, and every appended element is the shorter list's last element |
| InterpreterHelpers.PadEqualLengthsUnchanged | Src/Allocator/Interpreter/helpers.py:173-174 | non-empty lists of equal length come back unchanged |
| InterpreterHelpers.RepeatElem | Src/Allocator/Interpreter/helpers.py:179-183 | the padding `[last] * k` has length k and holds only `last` |
| InterpreterHelpers.UnderlineMatch | Src/Allocator/Interpreter/helpers.py:78-94 | None exactly when `to_match` does not occur in the searched slice; otherwise (i - start) spaces then carets up to `end`, or to i + len(to_match) when no end is given |
| InterpreterHelpers.ItemSpansChained | Src/Allocator/Interpreter/helpers.py:141-149 | the spans are chained: each starts at or after the end of the one before (or at the start position) and none ends before it starts |
| InterpreterHelpers.ItemSpansFound | Src/Allocator/Interpreter/helpers.py:141-149 | span k belongs to item idx[k], found items keep their order, each span is an occurrence of its item as long as the item and is its first one searched from the end of the span before, and every item between two found ones is skipped because `find` from that end fails |
| InterpreterHelpers.UnderlineOfAppend | Src/Allocator/Interpreter/helpers.py:141-149 | one more match adds spaces up to its start and carets over it, and leaves the underline built so far unchanged |
| InterpreterHelpers.UnderlineLength | Src/Allocator/Interpreter/helpers.py:141-149 | the underline's length is the last match's end offset |
| InterpreterHelpers.UnderlineCarets | Src/Allocator/Interpreter/helpers.py:141-149 | a position carries '^' exactly when some match covers that character of the text, and ' ' otherwise |
| InterpreterHelpers.UnderlineItems | Src/Allocator/Interpreter/helpers.py:141-149 | the loop that appends to `underlined` while advancing `prev_i` builds exactly the chained-span underline |
| InterpreterHelpers.UnderlineMatches | Src/Allocator/Interpreter/helpers.py:141-153 | literal path: text + "\n" + the match's underline, or TypeError (unpacking None) when there is no match; iterable path: text + "\n" + the chained underline |
| InterpreterHelpers.ItemUnderlineShape | Src/Allocator/Interpreter/helpers.py:141-149 | the underline's length is the last match's end, and its carets sit exactly under matched characters |
| ExtendedEnums.Members | Src/Allocator/Interpreter/dataclass.py:110 | iterating the enum yields declared members with pairwise distinct values: aliases are skipped |
| ExtendedEnums.AliasNotMember | Src/Allocator/Interpreter/dataclass.py:131 | a declaration whose value an earlier one already has is not iterated |
| ExtendedEnums.MemberFirstOfValue | Src/Allocator/Interpreter/dataclass.py:110 | an iterated member is the first declaration with its value |
| ExtendedEnums.MembersSnoc | Src/Allocator/Interpreter/dataclass.py:78 | declaring one more name adds a member exactly when its value is new |
| ExtendedEnums.ValueIn | Src/Allocator/Interpreter/dataclass.py:110 | a value is taken exactly when some declaration has it |
| ExtendedEnums.Fields | Src/Allocator/Interpreter/dataclass.py:65-70 | a name is listed exactly when it is the upper-cased name of a member not starting with '_' |
| ExtendedEnums.FieldsIff | Src/Allocator/Interpreter/dataclass.py:65-70 | the same, for any member list |
| ExtendedEnums.ScalarValues | Src/Allocator/Interpreter/dataclass.py:78-80 | exactly the members' scalar values |
| ExtendedEnums.NestedValues | Src/Allocator/Interpreter/dataclass.py:78-82 | exactly the elements of the members' tuple values |
| ExtendedEnums.Values | Src/Allocator/Interpreter/dataclass.py:73-83 | the scalar values in member order, then the flattened tuple elements; an atom is listed exactly when some member's value is or contains it |
| ExtendedEnums.FirstByValue | Src/Allocator/Interpreter/dataclass.py:110-117 | the first member whose value is or contains v, or none when no member's does |
| ExtendedEnums.GetMemberViaNameFromValue | Src/Allocator/Interpreter/dataclass.py:99-117 | ValueError exactly when no member's value is or contains v; otherwise the first member whose value does |
| ExtendedEnums.FirstByName | Src/Allocator/Interpreter/dataclass.py:131-134 | the first member whose name equals the given one case-insensitively, or none |
| ExtendedEnums.GetMemberViaValueFromName | Src/Allocator/Interpreter/dataclass.py:120-134 | ValueError exactly when no member's name matches case-insensitively; otherwise the first member that matches |
| ExtendedEnums.Contains | Src/Allocator/Interpreter/dataclass.py:44-55 | a str is in the enum exactly when its upper-case form is a field, an int exactly when it is among the values, a member when it belongs to this enum, and nothing else is |
| ExtendedEnums.ContainsIntIffLookup | Src/Allocator/Interpreter/dataclass.py:51-52 | an int is in the enum exactly when the lookup by value succeeds (with 99-117) |
| ExtendedEnums.ContainsStrThenLookup | Src/Allocator/Interpreter/dataclass.py:49-50 | a str in the enum is always found by the lookup by name (with 120-134) |
| ExtendedEnums.NameAbsent | Src/Allocator/Interpreter/dataclass.py:120-134 | a name no member carries is neither contained nor found, and its lookup raises ValueError |
| ExtendedEnums.FloatStrNpMap | Src/Allocator/Interpreter/dataclass.py:309-336 | seven declarations, plus two for an extended and two for a quad long double when the platform has them |
| ExtendedEnums.IntMapMembers | Src/Allocator/Interpreter/dataclass.py:339-354 | INT_STR_NPMAP iterates eight members; INT32 and UINT32 are aliases of INT and UINT |
| ExtendedEnums.IntMapAliasesHidden | Src/Allocator/Interpreter/dataclass.py:339-354 | "int32" and "UINT32" are not in INT_STR_NPMAP, and looking up "INT32" by name raises ValueError |
| BitFieldEnums.CheckAllowed | Src/Allocator/Interpreter/dataclass.py:200-206 | passes exactly when there are no definitions, or every upper-cased name is in ALLOWED; otherwise TypeError without ALLOWED and NameError with it |
| BitFieldEnums.ClassDict.constructor | Src/Allocator/Interpreter/dataclass.py:188 | the class dictionary starts as the class body |
| BitFieldEnums.ClassDict.ProcessMemberDefs | Src/Allocator/Interpreter/dataclass.py:188-228 | the in-place loop leaves the error and the dictionary that the member-definition specification gives |
| BitFieldEnums.DisallowedLeavesDictUnchanged | Src/Allocator/Interpreter/dataclass.py:200-206 | a disallowed name raises NameError with the class dictionary unchanged |
| BitFieldEnums.WriteMembersResult | Src/Allocator/Interpreter/dataclass.py:208-228 | on success every definition is written under its name as `initial << (n-1-i)` when MSB-first and `initial << i` otherwise, and other entries are kept |
| BitFieldEnums.ProcessMemberDefsSuccess | Src/Allocator/Interpreter/dataclass.py:188-228 | on success every definition has an int initial value and is written under its name as initial × 2^shift (n-1-i MSB-first, i otherwise); the old entries are kept and nothing else is added |
| BitFieldEnums.WriteMembersUpTo | Src/Allocator/Interpreter/dataclass.py:208-228 | the second loop stops at the first definition with a non-int value (TypeError) or a name of the class body (NameError), with every definition before it written and nothing else changed; names it wrote itself never stop it |
| BitFieldEnums.ProcessMemberDefsOutcome | Src/Allocator/Interpreter/dataclass.py:188-228 | a failed name check returns its error with the dictionary unchanged; otherwise the first blocking definition decides the error and the ones before it are written; the call succeeds exactly when every name is allowed, every value is an int and no name is in the class body |
| BitFieldEnums.AllOnesDistinctPowers | Src/Allocator/Interpreter/dataclass.py:243-247 | with all initial values 1 and the MSB-first default, the members' values are distinct powers of two below 2^n |
| RtlArgparse.Str2Int | Src/RTL/Scripts/argparse_helpers.py:32-35 | accepts exactly the digit strings, returning their decimal value; anything else is ExpectedIntParseException |
| RtlArgparse.Str2PosInt | Src/RTL/Scripts/argparse_helpers.py:38-41 | a leading '-' is ExpectedPosIntParseException; otherwise it is str2int |
| RtlArgparse.Str2NegInt | Src/RTL/Scripts/argparse_helpers.py:44-47 | without a leading '-' it is ExpectedPosIntParseException; with one it is str2int |
| RtlArgparse.Str2NegIntNeverSucceeds | Src/RTL/Scripts/argparse_helpers.py:44-47 | str2negint rejects every string |
| RtlArgparse.Str2PosIntIffDigits | Src/RTL/Scripts/argparse_helpers.py:38-41 | str2posint succeeds exactly on digit strings, with str2int's value |
| RtlArgparse.Str2IntOfNatToString | Src/RTL/Scripts/argparse_helpers.py:32-35 | str2int reads back the decimal text of every natural number |
| RtlArgparse.Str2FloatWithAtMostNFloatingDigits | Src/RTL/Scripts/argparse_helpers.py:69-78 | n = 0 is str2int's accept set and value; negative n is ValueError; positive n goes on to the float pattern; the other copy at Src/Scripts/argparse_helpers.py:101-110 is the same |
| RtlArgparse.Str2Bool | Src/RTL/Scripts/argparse_helpers.py:196-205 | a bool passes through; a string is True exactly for yes/true/t/y/1 and False exactly for no/false/f/n/0, in any case; anything else is ArgumentTypeError; the other copy at Src/Scripts/argparse_helpers.py:280-289 is the same |
| RtlArgparse.Str2BoolOfBoolText | Src/RTL/Scripts/argparse_helpers.py:196-205 | "True" and "False" parse back to the bool they print |
| RtlArgparse.WidthFromInt | Src/RTL/Scripts/argparse_helpers.py:244-255 | widths outside [16, 128] are refused before the map is consulted; inside, a width is accepted exactly when it is among the map's values, and the result is the first member holding it |
| RtlArgparse.Str2Bitwidth | Src/RTL/Scripts/argparse_helpers.py:230-255 | an int, or a digit string read as one, goes through the range check; another string is accepted exactly when its upper-case form is a field of the int or float map; the other copy at Src/Scripts/argparse_helpers.py:353-378 is the same |
| RtlArgparse.Str2BitwidthInt32 | Src/RTL/Scripts/argparse_helpers.py:230-255 | the integer width 32 selects INT's value |
| RtlArgparse.Str2BitwidthRefusesInt32Alias | Src/RTL/Scripts/argparse_helpers.py:230-255 | the name "int32" is refused, because INT32 is an alias and not a field |
| RtlArgparse.Bools2Bitstr | Src/RTL/Scripts/argparse_helpers.py:258-264 | the `result \|= int(a) << i` loop computes the packed value of the flags, in the chosen bit order |
| RtlArgparse.Bools2BitstrBits | Src/RTL/Scripts/argparse_helpers.py:258-264 | argument j of n sits at bit n-1-j when MSB-first and at bit j otherwise, and the result is below 2^n |
| RtlArgparse.LoneFlagMatchesBitField | Src/RTL/Scripts/argparse_helpers.py:258-264 | a lone True at position j packs to the value the bit-field metaclass gives member j in the same order (with Src/Allocator/Interpreter/dataclass.py:223-224) |
| ScriptsArgparse.Str2Int | Src/Scripts/argparse_helpers.py:64-67 | accepts exactly the digit strings with their decimal value; anything else is ExpectedIntParseException |
| ScriptsArgparse.Str2PosInt | Src/Scripts/argparse_helpers.py:70-73 | a leading '-' is rejected; otherwise it is str2int |
| ScriptsArgparse.Str2NegInt | Src/Scripts/argparse_helpers.py:76-79 | no leading '-' is rejected; otherwise it is str2int |
| ScriptsArgparse.Str2NegIntNeverSucceeds | Src/Scripts/argparse_helpers.py:76-79 | str2negint rejects every string |
| ScriptsArgparse.Str2PosIntIffDigits | Src/Scripts/argparse_helpers.py:70-73 | str2posint succeeds exactly on digit strings |
| ScriptsArgparse.Str2Float | Src/Scripts/argparse_helpers.py:82-86 | accepts exactly the strings matching `\d+(\.\d+)?`; others are ExpectedFloatParseException |
| ScriptsArgparse.Str2PosFloat | Src/Scripts/argparse_helpers.py:89-92 | a leading '-' is rejected; otherwise it is str2float |
| ScriptsArgparse.Str2NegFloat | Src/Scripts/argparse_helpers.py:95-98 | no leading '-' is rejected; otherwise it is str2float |
| ScriptsArgparse.FindDotTruthy | Src/Scripts/argparse_helpers.py:114 | `val.find('.')` is truthy exactly when '.' is not the first character, a missing '.' included |
| ScriptsArgparse.Str2Num | Src/Scripts/argparse_helpers.py:113-116 | the float branch unless the string starts with '.', and the int branch then |
| ScriptsArgparse.Str2PosNum | Src/Scripts/argparse_helpers.py:119-122 | the same dispatch onto str2posfloat and str2posint |
| ScriptsArgparse.Str2NegNum | Src/Scripts/argparse_helpers.py:125-128 | the same dispatch onto str2negfloat and str2negint |
| ScriptsArgparse.Str2NumIsFloatPattern | Src/Scripts/argparse_helpers.py:113-116 | str2num succeeds exactly on strings matching the float pattern, and then gives their float |
| ScriptsArgparse.Str2PosNumIsFloatPattern | Src/Scripts/argparse_helpers.py:119-122 | str2posnum succeeds exactly on strings matching the float pattern |
| ScriptsArgparse.NoPatternWithoutLeadingDigit | Src/Scripts/argparse_helpers.py:83 | a string that does not start with a digit never matches the float pattern |
| ScriptsArgparse.Str2NegNumNeverSucceeds | Src/Scripts/argparse_helpers.py:125-128 | str2negnum rejects every string |
| ScriptsArgparse.NumInRange | Src/Scripts/argparse_helpers.py:131-147 | returns v unchanged or raises ArgumentTypeError. Both bounds inclusive: accepts start <= v <= stop. Lower exclusive: start < v < stop, whatever upper_inclusive says. Lower inclusive, upper exclusive: start <= v, with no upper bound |
| ScriptsArgparse.Str2IntInRange | Src/Scripts/argparse_helpers.py:150-154 | succeeds exactly on digit strings whose value is in range, returning that value |
| ScriptsArgparse.RemovePrefixDash | Src/Scripts/argparse_helpers.py:383 | one leading '-' is removed, and nothing else |
| ScriptsArgparse.DashesToUnderscores | Src/Scripts/argparse_helpers.py:383 | same length; each '-' becomes '_', and other characters are kept |
| ScriptsArgparse.FlagNamesShape | Src/Scripts/argparse_helpers.py:381-384 | the names are exactly the option strings not starting with '--', rewritten; none contains '-' |
| ScriptsArgparse.PositionalDestsShape | Src/Scripts/argparse_helpers.py:386 | exactly the dests of the actions without option strings |
| ScriptsArgparse.AllOptionStringsMembers | Src/Scripts/argparse_helpers.py:382 | exactly the option strings of all actions |
| ScriptsArgparse.GetNonFlagsMembers | Src/Scripts/argparse_helpers.py:381-387 | a name is listed exactly when it is a rewritten single-dash option or a positional dest; the option names come first and contain no '-' |
| HexUtils.ByteOrderSymbol | Src/RTL/Scripts/hex_utils.py:117-132 | BIG gives '>', LITTLE gives '<', and NATIVE gives the host's symbol |
| HexUtils.ItemSize | Src/RTL/Scripts/hex_utils.py:188 | every modelled dtype is 1 to 8 bytes wide |
| HexUtils.ConvertToByteOrder | Src/RTL/Scripts/hex_utils.py:134-147 | as intended (see Findings): exactly itemsize bytes |
| HexUtils.ConvertReadsBack | Src/RTL/Scripts/hex_utils.py:134-147 | as intended: read in the target order, the bytes give back the integer |
| HexUtils.ConvertToByteOrderAsWritten | Src/RTL/Scripts/hex_utils.py:134-147 | as written: ValueError exactly when a multi-byte value is asked for in the host's order (`tobytes` takes no byte-order symbol); otherwise the host-order bytes, whatever the target |
| HexUtils.ConvertAsWrittenAgainstIntended | Src/RTL/Scripts/hex_utils.py:142-145 | one-byte types convert as intended; for wider ones a successful as-written conversion is the intended bytes reversed |
| HexUtils.ToHex | Src/RTL/Scripts/hex_utils.py:228 | two lower-case hex digits per byte |
| HexUtils.FromHex | Src/RTL/Scripts/hex_utils.py:185 | ValueError on a non-hex character; at most one byte per two characters |
| HexUtils.FromHexToHex | Src/RTL/Scripts/hex_utils.py:185 | decoding the hex text of some bytes gives those bytes |
| HexUtils.ToHexFromHex | Src/RTL/Scripts/hex_utils.py:162 | re-encoding decoded hex text gives the text in lower case |
| HexUtils.CheckedBytes | Src/RTL/Scripts/hex_utils.py:180-193 | odd length is ValueError, and so is a decoded byte count other than the itemsize; on success exactly itemsize bytes |
| HexUtils.FromHexLength | Src/RTL/Scripts/hex_utils.py:185 | a decoded even-length string gives half as many bytes as characters |
| HexUtils.WrongLengthRejected | Src/RTL/Scripts/hex_utils.py:188-193 | hex text not exactly twice the itemsize long is rejected |
| HexUtils.HexToIntAsWritten | Src/RTL/Scripts/hex_utils.py:197-198 | as written, every well-formed input reaches `newBYTEORDER` and raises AttributeError; no input succeeds |
| HexUtils.HexToInt | Src/RTL/Scripts/hex_utils.py:164-198 | with `newbyteorder`: succeeds exactly when the hex checks pass, giving a value in the dtype's range; otherwise ValueError; `hex_to_int` (Src/RTL/Scripts/hex_utils.py:230-244) is that conversion |
| HexUtils.PyIntType | Src/RTL/Scripts/hex_utils.py:214-225 | the chosen numpy type is an integer type that holds the value |
| HexUtils.IntToHex | Src/RTL/Scripts/hex_utils.py:200-228 | as intended: a non-integer is TypeError; a numpy integer gives two hex digits per byte of its width |
| HexUtils.IntToHexAsWritten | Src/RTL/Scripts/hex_utils.py:200-228 | as written: a non-integer is TypeError; a Python int succeeds exactly below bit length 63 when the target is not the host's order; a numpy integer exactly when it is one byte wide or the target is not the host's order; a success is the host-order hex text |
| HexUtils.IntToHexAsWrittenExamples | Src/RTL/Scripts/hex_utils.py:200-228 | every Python int below bit length 63 written NATIVE is ValueError; on a little-endian host `int_to_hex(1)` gives "01000000" where "00000001" is intended |
| HexUtils.AsWrittenReadsBackNative | Src/RTL/Scripts/hex_utils.py:134-244 | what the as-written writer produces reads back with the host's order, whatever target was asked for |
| HexUtils.IntToHexOutcome | Src/RTL/Scripts/hex_utils.py:214-228 | a Python int is int32 below bit length 31 and int64 below 63, with 8 or 16 hex digits; bit length 63 to 126 is AttributeError, since numpy has no int128; 127 and more is ValueError |
| HexUtils.NpIntegerRoundTrip | Src/RTL/Scripts/hex_utils.py:200-244 | hex_to_int with the same dtype and order gives back a numpy integer that int_to_hex encoded |
| HexUtils.PyIntRoundTrip | Src/RTL/Scripts/hex_utils.py:214-244 | the same for a Python int, read with the width int_to_hex chose |
| HexUtils.HexToIntOfBytes | Src/RTL/Scripts/hex_utils.py:230-244 | any itemsize bytes as hex decode to their value in that order; as written, to AttributeError |
| HexUtils.HexToIntInverse | Src/RTL/Scripts/hex_utils.py:200-244 | re-encoding a decoded value gives the hex text back, in lower case |
| HexUtils.PackDecoded | Src/RTL/Scripts/hex_utils.py:197-198 | the decoded value is the two's-complement reading of the bytes in the target order |
| HexUtils.DefaultOrdersDisagree | Src/RTL/Scripts/hex_utils.py:231 | with the intended writer and both defaults on a little-endian host, 1 written as int32 ("00000001", big endian by default at 289-292) reads back as 16777216 (native by default at 313) |
| HexUtils.Ext | Src/RTL/Scripts/hex_utils.py:277 | the extension is empty, or a '.'-led suffix of the name without '/' |
| HexUtils.ValidFileName | Src/RTL/Scripts/hex_utils.py:277-281 | accepted exactly when there is no extension or it is '.hex'; the result ends in '.hex', being the name with '.hex' appended when it had none; otherwise ValueError |
| HexUtils.NoDotGainsHex | Src/RTL/Scripts/hex_utils.py:277-279 | a name without '.' gains '.hex' |
| HexUtils.ValidFilePath | Src/RTL/Scripts/hex_utils.py:263-287 | succeeds exactly when the name is valid and not (ow is False and the file exists), giving the joined path; an existing file under ow=False is FileExistsError |
| HexUtils.DropHeader | Src/RTL/Scripts/hex_utils.py:316 | drops exactly the leading run of lines that start with '//' or are "\n"; what remains is a suffix that does not start with such a line |
| HexUtils.SkipHeader | Src/RTL/Scripts/hex_utils.py:316 | the index where the data lines start |
| HexUtils.DecodeLines | Src/RTL/Scripts/hex_utils.py:318-320 | on success one value per line |
| HexUtils.ReadLutFromHex | Src/RTL/Scripts/hex_utils.py:311-321 | the loop that appends decoded stripped lines after the header gives what the read specification gives |
| HexUtils.EntryHex | Src/RTL/Scripts/hex_utils.py:308-309 | each written entry is non-empty lower-case hex and is int_to_hex's output |
| HexUtils.DecodeWritten | Src/RTL/Scripts/hex_utils.py:308-309 | decoding the written data lines gives back the values |
| HexUtils.HeaderThenData | Src/RTL/Scripts/hex_utils.py:316 | the header run is dropped and data lines that are not header lines are kept |
| HexUtils.ReadAfterWrite | Src/RTL/Scripts/hex_utils.py:289-321 | reading a file written as header lines plus one entry per line, with the same dtype and order, gives back the values |
| FileHeaders.LiteralMatch | Src/Scripts/write_file_header.py:49-50 | a pattern without '*' matches exactly the equal name |
| FileHeaders.StarMatchesAll | Src/Scripts/write_file_header.py:153 | '*' matches every name |
| FileHeaders.LiteralThenStar | Src/Scripts/write_file_header.py:50 | "lit*" matches exactly the names starting with lit |
| FileHeaders.StarThenLiteral | Src/Scripts/write_file_header.py:49 | "*lit" matches exactly the names ending with lit |
| FileHeaders.AnyMatch | Src/Scripts/write_file_header.py:152-153 | true exactly when some pattern matches |
| FileHeaders.BlacklistMeaning | Src/Scripts/write_file_header.py:50 | which directory names the blacklist rejects, in plain terms |
| FileHeaders.WhitelistMeaning | Src/Scripts/write_file_header.py:49 | which file names the whitelist accepts, in plain terms |
| FileHeaders.ParentNames | Src/Scripts/write_file_header.py:150 | `Path.parents` names, from the nearest directory outwards, ending with the root's empty name |
| FileHeaders.AnyBlacklisted | Src/Scripts/write_file_header.py:150-154 | true exactly when some parent's name matches a blacklist pattern |
| FileHeaders.ShouldProcessFile | Src/Scripts/write_file_header.py:146-162 | true exactly when no ancestor directory name is blacklisted and the file name matches a whitelist pattern; the other copy at Src/RTL/Scripts/write_file_header.py:91-107 is the same |
| FileHeaders.DefaultFilter | Src/Scripts/write_file_header.py:146-162 | with the default lists, in plain terms |
| FileHeaders.HeaderSearchWindow | Src/Scripts/write_file_header.py:305-308 | a header is detected exactly when the license text lies wholly within the first 1000 characters; the other copy at Src/RTL/Scripts/write_file_header.py:272 is the same |
| FileHeaders.HeaderSurvivesAppend | Src/Scripts/write_file_header.py:305-308 | appending text keeps a detected header detected |
| FileHeaders.LateLicenseMissed | Src/Scripts/write_file_header.py:305-308 | a license text that does not end within the first 1000 characters is missed |
| FileHeaders.Suffix | Src/Scripts/write_file_header.py:183 | `Path.suffix`: empty, or a '.'-led ending of at least two characters with no other '.', shorter than the name |
| FileHeaders.SuffixOfExtension | Src/Scripts/write_file_header.py:183 | a name ending in a dot-led extension has that suffix |
| FileHeaders.Classify | Src/Scripts/write_file_header.py:189-204 | RTL (named after the parent directory) exactly for .sv/.v; ALLOCATOR exactly for .py under the allocator directory; SCRIPTS exactly for other .py under the current directory; otherwise none; the other copy at Src/RTL/Scripts/write_file_header.py:134-149 is the same |
| FileHeaders.VerilogIsRtl | Src/Scripts/write_file_header.py:189-191 | a .sv or .v file is RTL code of its parent directory |
| FileHeaders.NotebookHasNoModule | Src/Scripts/write_file_header.py:189-204 | an .ipynb file gets no module |
| FileHeaders.BareNotebookSuffix | Src/Scripts/write_file_header.py:183 | a name that is just ".ipynb", or a tail of it, has no suffix |
| FileHeaders.BaseMetadataEntries | Src/Scripts/write_file_header.py:213-227 | the separator is 72 dashes, the description is the one given, and inputs/outputs "N/A" exist exactly for RTL files; the other copy at Src/RTL/Scripts/write_file_header.py:151-166 is the same |
| FileHeaders.MetadataFillsTemplate | Src/Scripts/write_file_header.py:213-227 | the metadata supplies every field the header template names |
| FileHeaders.Format | Src/Scripts/write_file_header.py:265 | `HEADER.format(**metadata)` succeeds exactly when every field it names is present; otherwise KeyError |
| FileHeaders.KeysAppend | Src/Scripts/write_file_header.py:265 | concatenated templates name the union of their fields |
| FileHeaders.FormatIgnoresUnusedKey | Src/Scripts/write_file_header.py:265 | an entry the template does not name does not change the text |
| FileHeaders.FormatAppendText | Src/RTL/Scripts/write_file_header.py:205 | a template with literal text appended formats to the same text plus that literal |
| FileHeaders.TemplateKeys | Src/Scripts/write_file_header.py:55-76 | the fields HEADER names |
| FileHeaders.CleanLine | Src/Scripts/write_file_header.py:271-275 | a '//' line loses the '//' and the whitespace after it; other lines are kept |
| FileHeaders.CleanLines | Src/Scripts/write_file_header.py:269-276 | one cleaned line per line |
| FileHeaders.RenderPython | Src/Scripts/write_file_header.py:267-280 | the appending loop gives '"""\n' + the cleaned lines joined + '\n"""'; the other copy at Src/RTL/Scripts/write_file_header.py:207-222 is the same |
| FileHeaders.PythonDocstringLines | Src/Scripts/write_file_header.py:267-280 | the docstring's lines are the opening quotes, the cleaned header lines and the closing quotes |
| FileHeaders.PythonDocstringTrailingNewline | Src/RTL/Scripts/write_file_header.py:207-222 | a header ending in a newline gets one more, empty, body line |
| FileHeaders.Commented | Src/Scripts/write_file_header.py:294-296 | each wrapped part is prefixed with "// " |
| FileHeaders.AppendCommented | Src/Scripts/write_file_header.py:294-296 | the appending loop extends the wrapped lines with the commented parts |
| FileHeaders.RenderComment | Src/Scripts/write_file_header.py:282-302 | the line loop builds the comment-form header; the other copy at Src/RTL/Scripts/write_file_header.py:223-244 is the same |
| FileHeaders.BareCommentIsVerbatim | Src/Scripts/write_file_header.py:286-289 | a line that strips to '//' is kept verbatim |
| FileHeaders.VerbatimLines | Src/Scripts/write_file_header.py:286-300 | lines that are bare '//' or not comments at all are kept verbatim |
| FileHeaders.VerbatimHeader | Src/Scripts/write_file_header.py:282-302 | a header made only of such lines renders as itself |
| ScriptsFileHeader.MetadataDescription | Src/Scripts/write_file_header.py:181-229 | the description is the docstring only for a .py file without a header and with a non-empty docstring, and "N/A" otherwise; the metadata fills HEADER |
| ScriptsFileHeader.GetFileHeader | Src/Scripts/write_file_header.py:263-302 | the header text: the docstring form for a '.py' suffix, the comment form otherwise |
| ScriptsFileHeader.UpperCasePythonGetsCommentHeader | Src/Scripts/write_file_header.py:267 | a ".PY" file is classified with lower-cased suffix ".py" (183) but gets the comment form |
| ScriptsFileHeader.ClosingAt | Src/Scripts/write_file_header.py:341-342 | a found docstring starts and ends with the same triple quote |
| ScriptsFileHeader.FindDocstring | Src/Scripts/write_file_header.py:341-342 | the first triple-quoted block: none starts earlier, and when none is found no closed block exists |
| ScriptsFileHeader.ExpandLiteral | Src/Scripts/write_file_header.py:346 | a replacement template without backslashes is inserted as it is |
| ScriptsFileHeader.ExpandPrefix | Src/Scripts/write_file_header.py:346 | expanding a backslash-free prefix keeps it in front of the expanded rest |
| ScriptsFileHeader.RewrittenAsWrittenLiteral | Src/Scripts/write_file_header.py:334-346 | for a header without backslashes, the `re.sub` rewrite is the literal splice |
| ScriptsFileHeader.EscapedHeaderDiffers | Src/Scripts/write_file_header.py:339-346 | a header holding a backslash followed by 'n' replaces a docstring with a real line break, so the result differs from the header inserted as it is |
| ScriptsFileHeader.HeaderedFileUntouched | Src/Scripts/write_file_header.py:334-335 | a file that already has a header is left untouched |
| ScriptsFileHeader.RewrittenFileIsSkipped | Src/Scripts/write_file_header.py:334-346 | when the new header is itself detected, and any replaced docstring opened the file, the next run leaves the rewritten file alone |
| RtlFileHeader.MetadataShape | Src/RTL/Scripts/write_file_header.py:126-168 | description and purpose "N/A", a 72-dash separator, inputs exactly for RTL files, and HEADER filled |
| RtlFileHeader.HeaderKeys | Src/RTL/Scripts/write_file_header.py:49-71 | HEADER names the shared template's fields, and not the purpose |
| RtlFileHeader.PurposeNeverRendered | Src/RTL/Scripts/write_file_header.py:154 | the purpose entry never changes the header text |
| RtlFileHeader.WithDocstringChangesOnlyDescription | Src/RTL/Scripts/write_file_header.py:196-203 | the formatted copy differs only in the description, and only for a Python file with a non-empty docstring and description "N/A" |
| RtlFileHeader.GetFileHeader | Src/RTL/Scripts/write_file_header.py:192-244 | the header text for the metadata copy: docstring form for '.py', comment form otherwise |
| RtlFileHeader.PythonHeaderEndsWithBlankLine | Src/RTL/Scripts/write_file_header.py:207-222 | since HEADER ends in a newline (71), the Python form closes after an empty body line |
| RtlFileHeader.UpdatedContentSkipsHeadered | Src/RTL/Scripts/write_file_header.py:272-280 | a headed file is skipped; another keeps its whole text after the new header, and once that header is detected it is skipped on the next run |
| UnwrapVeo.Veo | Src/Scripts/unwrap_veo.py:44-47 | accepts exactly names ending in '.veo', unchanged; otherwise ArgumentTypeError; the other copy at Src/RTL/Scripts/unwrap_veo.py:17-20 is the same |
| UnwrapVeo.DotBeforeNewlineMeaning | Src/Scripts/unwrap_veo.py:52 | `re.match('.*\\.', v)` holds exactly when a '.' comes before any newline; the other copy at Src/RTL/Scripts/unwrap_veo.py:25 is the same |
| UnwrapVeo.Out | Src/Scripts/unwrap_veo.py:50-56 | (True, v) without a '.' before a newline; with one, (False, v) exactly for names ending in '.sv' or '.v'; otherwise ArgumentTypeError; the other copy at Src/RTL/Scripts/unwrap_veo.py:23-29 is the same |
| UnwrapVeo.OutOnOneLine | Src/Scripts/unwrap_veo.py:50-56 | for one-line names: (True, v) exactly without '.'; otherwise only '.sv'/'.v' endings |
| UnwrapVeo.OutMissesDotAfterNewline | Src/Scripts/unwrap_veo.py:52 | a '.' after a newline is not seen, so "out\nx.sv" counts as a directory |
| UnwrapVeo.ModuleStemStripsCharacters | Src/Scripts/unwrap_veo.py:74 | `strip('.veo')` removes every leading and trailing '.', 'v', 'e' and 'o', and the stem is a slice of the name; the other copy at Src/RTL/Scripts/unwrap_veo.py:51 is the same |
| UnwrapVeo.ModuleStemOverStrips | Src/Scripts/unwrap_veo.py:74 | "video.veo" becomes "id", not "video" |
| UnwrapVeo.KeyOrder | Src/Scripts/unwrap_veo.py:113 | the (direction, has packed range) key order is a strict total order |
| UnwrapVeo.InsertKeepsPorts | Src/Scripts/unwrap_veo.py:113 | insertion keeps the ports |
| UnwrapVeo.InsertKeepsKeyOrder | Src/Scripts/unwrap_veo.py:113 | insertion keeps the order among ports of equal key |
| UnwrapVeo.InsertIntoSorted | Src/Scripts/unwrap_veo.py:113 | inserting into a sorted list keeps it sorted |
| UnwrapVeo.SortByKeyIsStableSort | Src/Scripts/unwrap_veo.py:113 | `sorted(..., key=...)` gives a sorted permutation that keeps each key's ports in input order; the other copy at Src/RTL/Scripts/unwrap_veo.py:90 is the same |
| UnwrapVeo.GroupBy | Src/Scripts/unwrap_veo.py:113-115 | `itertools.groupby`: non-empty runs of equal key, neighbouring runs of different keys, concatenating to the input |
| UnwrapVeo.SortedGroupsAreKeyClasses | Src/Scripts/unwrap_veo.py:113-115 | on a sorted list each group is all the ports of its key, and groups come in strictly increasing key order |
| UnwrapVeo.Groups | Src/Scripts/unwrap_veo.py:113-115 | every group is non-empty |
| UnwrapVeo.DeclarationGroups | Src/Scripts/unwrap_veo.py:113-115 | one group per key present: all ports of that key in input order, keys strictly increasing; the other copy at Src/RTL/Scripts/unwrap_veo.py:90-92 is the same |
| UnwrapVeo.PackedRangeIffMsb | Src/Scripts/unwrap_veo.py:123-126 | "[msb:lsb] " appears exactly when msb is present, with msb stripped and a missing lsb as ' '; the other copy at Src/RTL/Scripts/unwrap_veo.py:100-103 is the same |
| UnwrapVeo.PlainPortDeclaration | Src/Scripts/unwrap_veo.py:122-126 | for any direction, type and range words without surrounding blanks, a missing qualifier and sign each render as a single ' ', and that placeholder is the one space between the neighbouring fields |
| UnwrapVeo.PresentQualifierIsGlued | Src/Scripts/unwrap_veo.py:122-126 | for any non-blank words, a present qualifier or sign is stripped, so it is glued to the next field without a space |
| UnwrapVeo.NameList | Src/Scripts/unwrap_veo.py:127 | one name per port, the first stripped and the rest as parsed |
| UnwrapVeo.GroupLines | Src/Scripts/unwrap_veo.py:119-130 | one line per group |
| UnwrapVeo.GroupLinesAt | Src/Scripts/unwrap_veo.py:119-130 | line i is group i's declaration |
| UnwrapVeo.DeclarationLinesEndInComma | Src/Scripts/unwrap_veo.py:129-130 | every group line ends in ','; the other copy at Src/RTL/Scripts/unwrap_veo.py:106-107 is the same |
| UnwrapVeo.RemoveLastCommaMeaning | Src/Scripts/unwrap_veo.py:137 | only the last ',' of the whole text is removed, and text without one is unchanged |
| UnwrapVeo.RemoveLastCommaAtJoin | Src/Scripts/unwrap_veo.py:137 | a comma ending the first part is the one removed when the rest has none |
| UnwrapVeo.ClosingLines | Src/Scripts/unwrap_veo.py:132-133 | the closing lines join to ");\n\nendmodule\n" after a newline |
| UnwrapVeo.ClosingHasNoComma | Src/Scripts/unwrap_veo.py:132-133 | the closing text holds no ',' |
| UnwrapVeo.AssembledText | Src/Scripts/unwrap_veo.py:118-137 | the module line, the group lines and the closing, with the last comma taken off the last group line |
| UnwrapVeo.RemoveClosingComma | Src/Scripts/unwrap_veo.py:118-137 | when the last head line ends in ',', the removed comma is that one |
| UnwrapVeo.AppendGroupLines | Src/Scripts/unwrap_veo.py:119-130 | the loop appends exactly the group lines to `raw_text` |
| UnwrapVeo.Serialise | Src/Scripts/unwrap_veo.py:113-137 | the text `main` writes is the assembled module text of the sorted, grouped ports; the other copy at Src/RTL/Scripts/unwrap_veo.py:90-114 is the same |
| UnwrapVeo.OutputFileName | Src/Scripts/unwrap_veo.py:139-143 | a directory target gives stem + '.sv' with -sv and stem + '.v' otherwise; a file target gives that file; the other copy at Src/RTL/Scripts/unwrap_veo.py:116-120 is the same |
| UnwrapVeo.FileTargetIsVerilog | Src/Scripts/unwrap_veo.py:139-143 | a one-line file target that passed `out` names a .sv or .v file |
| UnwrapVeo.Unwrap | Src/Scripts/unwrap_veo.py:71-143 | succeeds exactly when -n is given and valid and -o is absent or valid; the text is the serialisation of the sorted, grouped ports and the target the output file name; the driver in Src/RTL/Scripts/unwrap_veo.py:95-120 is the same |
| I2sCli.Reconciled | Src/RTL/Scripts/i2s_mono_stereo_wrapper.py:37-49 | without -f, aw becomes i2sw whenever they differ; with -f, aw is kept; nothing else changes; the other copy at Src/RTL/In/i2s_mono_stereo_wrapper.py:36-48 is the same |
| I2sCli.ArgsDictUpdate | Src/RTL/Scripts/i2s_mono_stereo_wrapper.py:37-44 | the test on and the update of `args` are the test on and the update of the options |
| I2sCli.ForwardedKey | Src/RTL/Scripts/i2s_mono_stereo_wrapper.py:51-53 | a parameter is passed exactly when its option has a value, and carries that value |
| I2sCli.ForwardedNames | Src/RTL/Scripts/i2s_mono_stereo_wrapper.py:51-53 | only the four parameter names are passed, never -f |
| I2sCli.ForwardedOptions | Src/RTL/Scripts/i2s_mono_stereo_wrapper.py:51-53 | exactly the given options are forwarded, renamed s→is_stereo, n→n_audio_channels, aw→audio_width, i2sw→i2s_width; the other copy at Src/RTL/In/i2s_mono_stereo_wrapper.py:50-52 is the same |
| I2sCli.MainKwargs | Src/RTL/Scripts/i2s_mono_stereo_wrapper.py:35-53 | `main`'s update of `args`, then its comprehension, give the forwarded reconciled options; the other copy at Src/RTL/In/i2s_mono_stereo_wrapper.py:34-52 is the same |
| I2sCli.MainParamsMeaning | Src/RTL/Scripts/i2s_mono_stereo_wrapper.py:51-62 | each header parameter is the option's value when given, else the default (True, 4, 24, 24); without -f the audio width equals the I2S width |
| I2sCli.AudioWidthAloneIsDropped | Src/RTL/Scripts/i2s_mono_stereo_wrapper.py:37-44 | without -f, an audio width given without an I2S width is replaced by the default 24 |
| RtlScriptsI2s.HeaderFileLines | Src/RTL/Scripts/i2s_mono_stereo_wrapper.py:61-81 | with STEREO as 1/0, eleven lines; AUDIO_WIDTH is the audio width, BUFFER_DEPTH is 4, and the channel count and I2S width do not change the text |
| RtlScriptsI2s.StereoIsPythonBool | Src/RTL/Scripts/i2s_mono_stereo_wrapper.py:64-79 | as written, the STEREO line carries "True" or "False", so the text differs from the intended header for every input |
| RtlScriptsI2s.GenerateHeader | Src/RTL/Scripts/i2s_mono_stereo_wrapper.py:51-81 | `main` writes the as-written header of the reconciled, forwarded parameters, which is never the intended one (STEREO reads True/False) |
| RtlScriptsI2s.RxStep | Src/RTL/Scripts/i2s_mono_stereo_wrapper.py:126-159 | one bit-clock edge: the 5-bit counter stays below 32, the word select is sampled, and the shift register stays within I2S_WIDTH bits |
| RtlScriptsI2s.WordShiftsIn | Src/RTL/Scripts/i2s_mono_stereo_wrapper.py:141-149 | after a word's edges the counter counts them and the register holds every bit but the first, truncated to I2S_WIDTH bits |
| RtlScriptsI2s.ShiftInStep | Src/RTL/Scripts/i2s_mono_stereo_wrapper.py:141-149 | one more edge of the same word shifts its bit in, unless it is the word's first |
| RtlScriptsI2s.WordEnd | Src/RTL/Scripts/i2s_mono_stereo_wrapper.py:134-140 | a word-select change clears register and counter; the ready flag rises exactly when the word had I2S_WIDTH edges, or stays up from the previous word if this one had fewer than four |
| RtlScriptsI2s.ReadyDuringWord | Src/RTL/Scripts/i2s_mono_stereo_wrapper.py:152-154 | within a word the ready flag never rises, and a raised flag falls on the fourth edge |
| RtlScriptsI2s.WideWordsNeverReady | Src/RTL/Scripts/i2s_mono_stereo_wrapper.py:110-149 | with I2S_WIDTH above 32 the 5-bit counter never reaches I2S_WIDTH - 1, so no sample is ever ready |
| RtlScriptsI2s.RxBounds | Src/RTL/Scripts/i2s_mono_stereo_wrapper.py:109-149 | from reset, the counter stays below 32 and the register within I2S_WIDTH bits |
| RtlScriptsI2s.I2sReceiver.constructor | Src/RTL/Scripts/i2s_mono_stereo_wrapper.py:127-131 | the registers start in their reset values |
| RtlScriptsI2s.I2sReceiver.Reset | Src/RTL/Scripts/i2s_mono_stereo_wrapper.py:127-131 | reset clears counter, register and ready flag |
| RtlScriptsI2s.I2sReceiver.BitClock | Src/RTL/Scripts/i2s_mono_stereo_wrapper.py:126-159 | the non-blocking register updates of one edge give exactly the step function's new state |
| RtlScriptsI2s.ModIsWrap | Src/RTL/Scripts/i2s_mono_stereo_wrapper.py:199 | `(ptr + 1) % BUFFER_DEPTH` is the wrap of a pointer below the depth |
| RtlScriptsI2s.Window | Src/RTL/Scripts/i2s_mono_stereo_wrapper.py:119-123 | a channel's queue: `count` entries read from the start pointer around the ring |
| RtlScriptsI2s.WindowPush | Src/RTL/Scripts/i2s_mono_stereo_wrapper.py:198-200 | writing at write_ptr = read_ptr + count appends the sample to the queue |
| RtlScriptsI2s.WindowPop | Src/RTL/Scripts/i2s_mono_stereo_wrapper.py:239-240 | advancing read_ptr around the ring drops the queue's first entry |
| RtlScriptsI2s.BufAudioIn.Row | Src/RTL/Scripts/i2s_mono_stereo_wrapper.py:119-123 | a channel's row of `audio_buffer` |
| RtlScriptsI2s.BufAudioIn.Fifo | Src/RTL/Scripts/i2s_mono_stereo_wrapper.py:119-123 | a channel's queue holds `buffer_count` entries, at most BUFFER_DEPTH |
| RtlScriptsI2s.BufAudioIn.constructor | Src/RTL/Scripts/i2s_mono_stereo_wrapper.py:178-191 | all queues empty and all flags low |
| RtlScriptsI2s.BufAudioIn.Reset | Src/RTL/Scripts/i2s_mono_stereo_wrapper.py:178-191 | pointers, counts and buffer entries zero, queues empty, flags low |
| RtlScriptsI2s.BufAudioIn.WriteChannel | Src/RTL/Scripts/i2s_mono_stereo_wrapper.py:196-205 | a channel below depth stores the sample at write_ptr and counts it; a full channel raises buffer_full; other channels are unchanged |
| RtlScriptsI2s.BufAudioIn.WriteChannels | Src/RTL/Scripts/i2s_mono_stereo_wrapper.py:196-205 | the `for` loop over channels appends the sample to every queue below depth and raises buffer_full when some channel was full |
| RtlScriptsI2s.BufAudioIn.WriteStep | Src/RTL/Scripts/i2s_mono_stereo_wrapper.py:193-215 | on a rising edge of sample_ready_sys each queue below depth gains the truncated sample, sample_valid pulses and buffer_full reports a full channel; with no edge, queues are kept and both flags drop |
| RtlScriptsI2s.BufAudioIn.ReadChannel | Src/RTL/Scripts/i2s_mono_stereo_wrapper.py:236-245 | a non-empty channel advances read_ptr around the ring and decrements its count; others are unchanged |
| RtlScriptsI2s.BufAudioIn.ReadStep | Src/RTL/Scripts/i2s_mono_stereo_wrapper.py:233-247 | when buffer_ready, every non-empty queue loses its first entry; otherwise nothing changes |
| RtlScriptsI2s.BufAudioIn.AudioChannelOut | Src/RTL/Scripts/i2s_mono_stereo_wrapper.py:220-228 | each channel outputs the head of its queue, and zero when the queue is empty |
| RtlInI2s.HeaderFileLines | Src/RTL/In/i2s_mono_stereo_wrapper.py:60-95 | the four `define lines give STEREO as int(is_stereo), and the channel count, audio width and I2S width as given |
| RtlInI2s.GenerateHeader | Src/RTL/In/i2s_mono_stereo_wrapper.py:50-95 | `main` writes the header of the reconciled, forwarded parameters |
| RtlInI2s.ApStep | Src/RTL/In/i2s_mono_stereo_wrapper.py:124-194 | one clock edge keeps the counter at most 24 and the shift register within 24 bits |
| RtlInI2s.QuietStep | Src/RTL/In/i2s_mono_stereo_wrapper.py:135-153 | since sample_ready_i2s is never set, a state with all ready flags low stays so on every edge |
| RtlInI2s.SampleValidNeverPulses | Src/RTL/In/i2s_mono_stereo_wrapper.py:162-194 | from reset, sample_valid never goes high, whatever the clocks do |
| RtlInI2s.ShiftInStep | Src/RTL/In/i2s_mono_stereo_wrapper.py:139-148 | one more edge of the same word shifts its bit in, unless it is the first, and the counter saturates at 24 |
| RtlInI2s.WordShiftsIn | Src/RTL/In/i2s_mono_stereo_wrapper.py:139-148 | after a word the counter is its length capped at 24 and the register holds every bit but the first, truncated to 24 bits |
| RtlInI2s.AudioProcessor.constructor | Src/RTL/In/i2s_mono_stereo_wrapper.py:125-132 | the registers start in their reset values |
| RtlInI2s.AudioProcessor.Reset | Src/RTL/In/i2s_mono_stereo_wrapper.py:125-179 | reset clears the receiver and synchroniser registers |
| RtlInI2s.AudioProcessor.BitClock | Src/RTL/In/i2s_mono_stereo_wrapper.py:124-158 | the register updates of one bit-clock edge give exactly the step function's new state |
| RtlInI2s.AudioProcessor.SysClock | Src/RTL/In/i2s_mono_stereo_wrapper.py:162-194 | the register updates of one system-clock edge give exactly the step function's new state |

## Left out

- Floating point:
  - str2float's value (modelled as the matched text);
  - `float_to_hex` and `hex_to_float`;
  - `str2freq` and `str2float_in_range`;
  - the `\d+{1,n}` pattern of `str2float_with_atmost_n_floating_digits`, whose outcome for n > 0 stays abstract;
  - the LUT generators and det_metric.
- `eval_arithmetic_str_unsafe`, which calls Python `eval`.
- `str2enumval`, which calls methods the enum does not define.
- `str2path` and the other path helpers.
- The `match_all` and predicate branches of `underline_matches`, which use regular expressions.
- Python's Unicode behaviour:
  - `isdigit` is taken as ASCII '0'..'9';
  - `upper`, `lower` and `strip` act on ASCII letters and whitespace only.
- fnmatch's '?' and '[...]': patterns are literal characters and '*', matched case-sensitively, which is all the shipped lists use.
- File and directory I/O:
  - `os.walk`, `scan_files` and the YAML resources file;
  - the file writes of both header writers;
  - the file side of `write_lut_to_hex` and `read_lut_from_hex`.
  - The lines of a file, its text and `os.path.exists` become parameters.
- `Path` normalisation: a path is a list of directory names and a file name.
- `extract_docstring_from_file` runs the file; its result is a parameter.
- `textwrap.fill` is a parameter `fill`.
- `_overwrite_fn` and `generate_duplicate_register_file`.
- The header texts of `generate_header_file` are modelled as lines, not byte for byte. Only the lines whose values change are stated.
- `HexLutManager._fmap` updates (`_change_format_mapping`, the `update` at line 303) and the header text they fill. The model reads the header as a run of lines.
- HexUtils.ConvertToByteOrder, HexUtils.ConvertReadsBack, HexUtils.IntToHex and HexUtils.IntToHexOutcome are proved of the writer as intended. As written, `_convert_to_byte_order` raises for a multi-byte value in the host's order and gives host-order bytes otherwise (`ConvertToByteOrderAsWritten`, see Findings).
- HexUtils.NpIntegerRoundTrip, HexUtils.PyIntRoundTrip and HexUtils.HexToIntInverse are round trips through the intended writer and the corrected reader. As written, `AsWrittenReadsBackNative` is what holds.
- HexUtils.EntryHex, HexUtils.DecodeWritten and HexUtils.ReadAfterWrite describe `write_lut_to_hex` built on the intended writer; the as-written writer fails or writes host-order text, as `IntToHexAsWritten` states.
- HexUtils.DefaultOrdersDisagree compares the intended writer with the reader; as written, the writer's bytes are in the host's order.
- ScriptsFileHeader.Rewritten inserts the header as it is. As written, `re.sub` expands it as a replacement template (`RewrittenAsWritten`, see Findings); the two agree for a header without backslashes (`RewrittenAsWrittenLiteral`).
- ScriptsFileHeader.RewrittenFileIsSkipped is proved of the header inserted as it is; for a backslash-free header the as-written rewrite is the same text.
- ScriptsFileHeader.RewrittenAsWritten: template escapes other than `\\`, `\a \b \f \n \r \t \v` and `\g<0>`/`\g<1>` (numbered references, octal and hex escapes, unknown letters, which `re` rejects) give no result in the model.
- InterpreterHelpers.UnderlineMatch and InterpreterHelpers.UnderlineMatches take non-negative start and end positions; Python's negative indices, counted from the end of the text, are not modelled.
- The `.veo` INST_TAG and port-comment regular expressions: the unwrapper takes the parsed port records as its input.
- `parser.error` and argparse's own option parsing: the options arrive parsed.
- LOGGER warnings.
- The i2s scripts import `str2bool` from a module that does not define it. `-f` is modelled as a plain bool.
- RtlScriptsI2s.BufAudioIn.WriteStep: the two-flop CDC synchroniser and the receiver-to-buffer wiring are not modelled. `sample_ready_sys` and `shift_reg` are parameters of the write step.
- RtlScriptsI2s.BufAudioIn: `buffer_count` and `channel_buffer_valid` are driven from two `always_ff` blocks, so a write and a read in the same cycle have no defined result. Writes and reads are separate steps, and no combined cycle is claimed.
- RtlScriptsI2s.BufAudioIn: register widths of the pointers and counts are not modelled; pointers stay below BUFFER_DEPTH and counts at most BUFFER_DEPTH by the class invariant.
- RtlInI2s: the template calls the undefined macros `GENERATE_I2S_CHANNEL_REGS` and `CLR_I2S_CHANNEL_REGS`, and their registers are left out. Its shift register is taken as 24 bits wide, the counter's cap.
- The SystemVerilog control plane (arbiter, DFX controller, AXI-Lite register file) is not part of this model.

## Findings

| source | as written | input that shows it | evidently intended | confidence | as-written member | corrected member |
|---|---|---|---|---|---|---|
| Src/RTL/Scripts/hex_utils.py:197-198 | `hex_to_dtype` calls `np.dtype(dtype).newBYTEORDER(...)`, which numpy dtypes do not have, so every input that passes the length checks raises AttributeError; `hex_to_int` therefore never returns | `hex_to_int("00000001", np.int32)` | `newbyteorder`, reading the bytes in the target order | not executed | HexUtils.HexToIntAsWritten | HexUtils.HexToInt |
| Src/RTL/Scripts/hex_utils.py:142-143 | when the value's order already is the target, `f.tobytes(target_order)` passes '<' or '>' as the memory-layout argument, which accepts only 'C', 'F', 'A' and 'K', so it raises ValueError; multi-byte dtypes report '=', which becomes the host's symbol | `int_to_hex(5, BYTEORDER.NATIVE)` on any host | `f.tobytes()`, the bytes already being in the target order | not executed; high | HexUtils.IntToHexAsWritten | HexUtils.IntToHex |
| Src/RTL/Scripts/hex_utils.py:144-145 | `f.astype(...newbyteorder(target))` on a numpy scalar returns a scalar, and numpy scalars hold their value in the host's order, so `.tobytes()` gives host-order bytes whatever the target | `int_to_hex(1)` (big endian by default) on a little-endian host gives "01000000" | "00000001", the bytes in the target order | not executed; medium (rests on numpy keeping scalars in native order) | HexUtils.IntToHexAsWrittenExamples | HexUtils.IntToHex |
| Src/Scripts/write_file_header.py:346 | `re.sub(pattern, header, ...)` treats the header as a replacement template, so backslash escapes in it are expanded (and unknown ones raise) | a .py file with a docstring whose header text holds a backslash followed by 'n' | the header inserted as it is, as the f-string at line 339 does when there is no docstring | not executed; high | ScriptsFileHeader.EscapedHeaderDiffers | ScriptsFileHeader.Rewritten |
| Src/RTL/Scripts/i2s_mono_stereo_wrapper.py:64-79 | the header is an f-string, so `{is_stereo}` is substituted before `.format(is_stereo=int(is_stereo))` runs and the line reads `STEREO = True;` | the default `is_stereo=True` | `STEREO = 1;` / `STEREO = 0;`, as `int(is_stereo)` shows | not executed | RtlScriptsI2s.StereoIsPythonBool | RtlScriptsI2s.HeaderFileLines |
