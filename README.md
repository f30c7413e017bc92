# Current validators: ledger replay

This project models `parse_transactions` from the indy-node script `scripts/current_validators.py`.

The function reads the pool ledger of an Indy network one transaction at a time. It builds an insertion-ordered dictionary that maps each validator's `dest` to the validator's current attributes. The seven node fields `alias`, `blskey`, `client_ip`, `client_port`, `node_ip`, `node_port` and `services` follow last-write-wins. `identifier` is the originator of the first transaction for that `dest`, and `dest` holds the key itself. The project also models the comma logic of the JSON branch of `write_result`, which prints that dictionary.

Modules:

- `Json` (json.dfy): the parsed form of one ledger line, `Value`, and the lookups a Python subscript performs. Each lookup returns `None` where the source's chained subscript would raise.
- `Decoder` (decoder.dfy): one ledger line under protocol version `"1"` or `"2"`. A line becomes one of:
  - a `Fragment`, with the dest, the recognised fields and the identifier;
  - `Skip`, when the dest is null;
  - `Malformed`, when the source would raise: a missing key or index, a subscript of a value that is not an object, or an unhashable dest (the `in validators.keys()` test at current_validators.py:53).
- `Projector` (projector.dfy): the dictionary as a `Table` (key order plus entries).
  - `Step` applies one fragment, `Fold` applies many, and `DecodeAll`/`Replay` describe the whole run.
  - `ParseTransactions` is the loop of the source. It keeps `order` and `validators` as local values and reassigns them once per record; the source's in-place mutation of its `OrderedDict` is rendered as that reassignment. It is proved equal to `Replay`.
  - `ApplyFragment` is the body of that loop for one decoded record. It is proved equal to `Step`.
- `ProjectorProperties` (properties.dfy): the promises of the replay, proved about `Fold`, `DecodeAll` and `Replay`.
- `Scenario` (scenario.dfy): a three-record replay.
  - Validator x gets an alias, y gets a node address, then x gets a client port from another originator.
  - The lemma gives the exact resulting table for any two distinct dests that are non-null and hashable, and any field values and originators.
- `Report` (report.dfy): the JSON array printer, `WriteJson`, which has the same loop and counter as the source. The serialised objects are opaque strings.

The names of dictionary keys are modelled by the datatype `Projector.Key`: the seven `Field(Attr)` keys, `Identifier` and `Dest`. `KeyName` maps each one back to the name the source uses, and `KeyNamesDistinct` shows that the nine names are distinct. An entry therefore cannot hold a key other than these nine, whatever the ledger holds.

## Behaviour worth noting

- The protocol version is tested inside the loop, once per record (current_validators.py:35, 42, 48-50). So an empty ledger yields the empty dictionary whatever the version (`UnknownVersion`), and any other ledger with an unknown version yields the error.
- A record whose `dest` key is missing is not skipped. `txn_json_dump[1]['dest']` raises `KeyError`, so the record is `Malformed` and the run fails. Only a present `dest` holding null is skipped (`SkipIffNullDest`).
- The JSON counter is decremented only when a comma is printed, so before each element it equals the number of elements still to print, and no comma follows the last element. `WriteJson` is proved to print `[`, the elements separated by exactly one comma each, and `]`.
- The per-field promise (last write wins, independently for each of the seven fields) is `FieldIsLastWrite`. For one record, `RecognisedIgnoresOthers`, `RecognisedOverwrite` and `RecognisedAgree` say which keys of `data` matter.

## Model

| member | source | states |
|---|---|---|
| Decoder.ProtocolOf | scripts/current_validators.py:35-50 | protocol 1 is selected exactly for the string "1", protocol 2 exactly for "2", and nothing for any other string |
| Decoder.RecognisedIgnoresOthers | scripts/current_validators.py:57-84 | a key of `data` other than the seven field names is ignored: adding, changing or removing it leaves the recognised fields unchanged |
| Decoder.RecognisedOverwrite | scripts/current_validators.py:57-84 | writing one field's key in `data` changes exactly that field of the fragment, and no other |
| Decoder.RecognisedAgree | scripts/current_validators.py:57-84 | two `data` objects give the same fragment fields exactly when they agree, presence and value, on the seven field names |
| Decoder.TargetIffLayout | scripts/current_validators.py:35-58 | a record decodes to a fragment exactly when its protocol's layout holds a non-null hashable dest, an object as `data` whose recognised fields are the fragment's, and the identifier (protocol 1) or `from` (protocol 2). With `SkipIffNullDest`, every record that is neither skipped nor so carried is `Malformed` |
| Decoder.SkipIffNullDest | scripts/current_validators.py:35-44 | under either protocol, a record is skipped exactly when the dest slot of its layout is present and holds null |
| Decoder.ProtocolsAgree | scripts/current_validators.py:35-47 | a protocol-1 record and a protocol-2 record that carry the same dest, data and originator decode to the same result. The result is the skip for a null dest, the fragment of the recognised fields for a hashable dest with an object as data, and a failure otherwise |
| Projector.KeyNamesDistinct | scripts/current_validators.py:57-90 | the nine typed keys stand for nine different dictionary keys of the source: two keys with the same name are the same key |
| Projector.FailureIsFinal | scripts/current_validators.py:32-50 | once decoding some prefix of the ledger fails, decoding the whole ledger fails with the same error |
| Projector.StepWellFormed | scripts/current_validators.py:53-90 | applying one record keeps the dictionary well formed: the key order has no repeats and lists exactly the keys of the entries; every entry holds its own key under `dest` and has an `identifier` |
| Projector.FoldWellFormed | scripts/current_validators.py:53-90 | the dictionary after any sequence of records is well formed |
| Projector.ApplyFragment | scripts/current_validators.py:53-90 | the in-place update for one record performs exactly one `Step`: a new dest is appended to the key order with a fresh entry; fields are overwritten; `identifier` is set only if absent; `dest` is stamped |
| Projector.ParseTransactions | scripts/current_validators.py:25-92 | the loop returns exactly `Replay(ledger, version)`: the error for a bad version or the first malformed record, and otherwise the folded dictionary, which is well formed |
| ProjectorProperties.FoldKeys | scripts/current_validators.py:53-54 | a dest has an entry exactly when some decoded record addresses it |
| ProjectorProperties.OrderIsFirstAppearance | scripts/current_validators.py:28-54 | the dictionary's key order holds each addressed dest exactly once, in the order of first appearance in the ledger |
| ProjectorProperties.OrderIsStable | scripts/current_validators.py:53-54 | further records never reorder or remove keys: the old key order is a prefix of the new one |
| ProjectorProperties.UpdateEntryField | scripts/current_validators.py:57-84 | after one record, a field holds the record's value if the record carries it, and otherwise its previous value; it was absent before only if it is still absent |
| ProjectorProperties.FieldIsLastWrite | scripts/current_validators.py:57-84 | in the final entry of a dest, a field is present exactly when some record for that dest carried it. When present, it holds the value from the last such record, independently of the other fields |
| ProjectorProperties.IdentifierKept | scripts/current_validators.py:85-89 | after one record, `identifier` is present; it keeps its previous value if there was one (even null) and otherwise takes the record's originator |
| ProjectorProperties.IdentifierIsFirstWrite | scripts/current_validators.py:85-89 | the final `identifier` of a dest is the originator of the first record for that dest, whatever later records carry |
| ProjectorProperties.EntryShape | scripts/current_validators.py:85-90 | every entry holds its own key under `dest` and has an `identifier` |
| ProjectorProperties.SkippedRecordIsInert | scripts/current_validators.py:35-44 | inserting a skipped record anywhere in the ledger changes neither whether decoding succeeds nor the decoded records |
| ProjectorProperties.NullDestChangesNothing | scripts/current_validators.py:35-44 | inserting a null-dest record anywhere in the ledger leaves the replay's success unchanged, and leaves the final dictionary unchanged when it succeeds |
| ProjectorProperties.UnknownVersion | scripts/current_validators.py:32-50 | for a version other than "1" and "2", an empty ledger replays to the empty dictionary and any other ledger to the protocol-version error |
| ProjectorProperties.ProtocolEquivalentLedgers | scripts/current_validators.py:35-47 | two ledgers whose records decode alike, one read as protocol 1 and the other as protocol 2, replay to the same result |
| Scenario.ThreeRecordReplay | scripts/current_validators.py:25-92 | records (x, alias, A), (y, node_ip, B), (x, client_port, C) give keys [x, y]. x holds the alias and the client port with identifier A; y holds the node address with identifier B |
| Report.WriteJson | scripts/current_validators.py:133-140 | the printed report is `[`, then the elements joined with single commas, then `]` and a newline |
| Report.JoinAddsSeparators | scripts/current_validators.py:134-140 | joining n elements adds exactly n - 1 commas to those in the elements, so no comma trails the last element |
| Report.JoinAppend | scripts/current_validators.py:134-140 | the joined array splits at any point into the two joined parts with one comma between them |

## Left out

- `get_ledger` (current_validators.py:95-127) runs `read_ledger` as a subprocess. The ledger is a parameter: the sequence of its lines, already parsed.
- `json.loads` of each line: a line that is not JSON makes the source raise. The model starts from parsed `Json.Value`s, so that failure is not represented.
- `parse_inputs` (current_validators.py:152-174), the `__main__` block (177-181) and the logging calls are not part of this model. `parse_inputs` also sets the default protocol version `"2"`.
- The CSV branch of `write_result` is not modelled; it is printing through `csv.DictWriter`.
- `json.dumps` with `sort_keys` is not modelled: `Report.WriteJson` takes each entry's serialised text as an opaque string. The key order inside one Python entry dictionary is likewise not modelled, because both report formats reorder the keys.
- JSON numbers are modelled as integers only; floating point is left out.
- Key equality: two dests are the same key exactly when they are equal `Value`s. Python also identifies `True` with `1` and `1.0` with `1` as dictionary keys; that coincidence is not modelled.
- The kinds of exception (`KeyError`, `IndexError`, `TypeError`) are collapsed into one error, `MalformedRecord(i)`, which names the ledger line where the run stops. The `return 1` for an unknown version is `BadProtocolVersion`.
- ProjectorProperties.NullDestChangesNothing: when both replays fail, the error can name a different line index, because the inserted record shifts the later lines.
