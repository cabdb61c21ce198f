# ZoneEdit TXT-record form rewrite, in Dafny

`getssl-dns-zoneedit` is a DNS hook that publishes and removes ACME
`_acme-challenge` TXT records on ZoneEdit. It does this by editing the HTML
forms of ZoneEdit's control panel. This project models the part of
`index.js` that computes what is posted, and proves properties of it:

- **Reading a page's form** (`InputFold`): every `<input>` becomes
  `{[name]: value}`, and these are folded left to right with
  `extend(true, acc, obj)`. The edit step then adds `confirm = ''`.
- **`recordsFromForm`** (`TxtRecords`, `TxtEditor`): the sparse `records`
  array built from the fields named `TXT::<index>::<property>`.
- **`addTxtRecord` / `delTxtRecord`** (`TxtRecords`, `TxtEditor`):
  - look up the first record whose `host` is the target;
  - update its `txt`, or push `{host, txt, ttl: ''}`;
  - drop `del` from every record (add), or set `del = 1` on every record
    carrying the host and drop it from the others (delete);
  - write every record property back into `TXT::i::p`, then set
    `next = ''`.
- **The request body** (`FormPayload`, `UriComponent`):
  `Object.keys(form).map(k => enc(k) + '=' + enc(form[k])).join('&')`.
  `encodeURIComponent` and `decodeURIComponent` are modelled by the ECMA-262
  abstract operations Encode and Decode that they call.
- **The login form** (`Login`): it sets `login_user` and `login_pass`, and
  `login_hash = md5(user ++ md5(pass) ++ login_chal)`.

Main modelling choices:

- A JavaScript object used as a string map is an `OrderedMap`. It holds its
  keys in insertion order, which is the order `Object.keys` lists them, and
  their values.
- The provider form is mutated in place by the record code. So `TxtEditor`
  holds it in a `FormObject` class, and the loops of `recordsFromForm`,
  `records.find` and the write-back are methods. Each method is proved
  equal to a specification function of `TxtRecords`, and the properties are
  proved about those functions.
- A hole of the sparse array is `None`. `records.find` visits holes as
  `undefined`, and `r.host` on `undefined` throws. So when the scan reaches
  a hole before a matching record, `AddForm`/`DelForm` return `None` and the
  methods return `false` with the form untouched. `ContiguousNeverThrows`
  states when this cannot happen.
- The target host (`state.txtHost`, which index.js:14 fixes to
  `_acme-challenge`) and the value (`state.txtValue`) are parameters. So are
  the user, the password and `md5`.

`login` (index.js:171-178) posts the plaintext password in `login_pass`
next to `login_hash`; `Login.LoginPayloadCarriesPassword` states it.

## Model

| member | source | states |
|---|---|---|
| OrderedMaps.OrderedMap.Put | index.js:249 | a property write keeps an existing key in place, appends a new key last, sets its value, and keeps the map valid |
| OrderedMaps.OrderedMap.Remove | index.js:272 | `delete` drops exactly that key, keeps the other keys with their values, and changes nothing when the key is absent |
| OrderedMaps.RemoveAt | index.js:272 | deleting the key at position `p` leaves the keys before it and after it in their old order |
| FieldKeys.ParseKey | index.js:243-245 | a field name is a record field `TXT::i::p` or an opaque field exactly when it prints back as that key; names without the `TXT::` prefix are opaque |
| FieldKeys.KeyRoundTrip | index.js:274 | the name written by `` `TXT::${i}::${k}` `` is read back by `k.split('::')` as index `i` and property `k` |
| FieldKeys.KeyStringInjective | index.js:274 | two different (index, property) pairs are written to different field names |
| TxtRecords.SetProp | index.js:246-249 | `records[i][p] = v` creates `records[i]` when missing, grows the array with holes, sets `p` and leaves every other element alone |
| TxtRecords.RecordsOfCover | index.js:240-252 | every field `TXT::i::p` of the form is in the array as `records[i][p]` with the field's value |
| TxtRecords.RecordsOfSound | index.js:240-252 | nothing else is: every record property comes from its field, an index with no field is a hole, and the array never ends in a hole |
| TxtRecords.RecordsIgnorePlain | index.js:242-243 | setting a field without the `TXT::` prefix leaves the extracted records unchanged |
| TxtRecords.FindFrom | index.js:257 | `records.find` returns the first record carrying the host, or the first hole when one comes earlier, with no match and no hole before it |
| TxtRecords.TargetFacts | index.js:257-267 | the edited record is the first one whose `TXT::j::host` field is the host; when there is none it goes past every record of the form |
| TxtRecords.UpsertShape | index.js:257-267 | after the update-or-push the target has the host and the new `txt`; an existing one keeps its other properties; a pushed one is `{host, txt, ttl: ''}`; the other records are untouched |
| TxtRecords.WriteRecordsFrame | index.js:269-277 | the write-back removes no field, keeps the order, and changes no opaque field and no record field the records do not print |
| TxtRecords.ClearDelOk | index.js:272 | `ClearDel` (`delete r.del` on every record) keeps every hole and record in place, each record keeps all its properties but `del`, no record holds `del`, and every record stays a valid map with printable property names |
| TxtRecords.MarkDelShape | index.js:300-307 | `MarkDel` keeps every hole and record in place, sets `del = 1` on each record carrying the host, and removes `del` from every other one |
| TxtRecords.WriteRecordsValues | index.js:273-275 | after the write-back every printed property `r[i][p]` is in field `TXT::i::p` |
| TxtRecords.AddFormFrame | index.js:269-282 | `addTxtRecord` keeps every field except `next` and the target's `txt`, in order and value; a `TXT::i::del` field keeps its old value although the records lost `del` |
| TxtRecords.AddFormTarget | index.js:254-282 | after `addTxtRecord` the first record for the host (or the pushed one, with `ttl` empty) holds the host and the value, and `next` is empty |
| TxtRecords.AddFormNewKeys | index.js:262-280 | `addTxtRecord` adds no field except `next`, the target's `txt` and, for a pushed record, its `host` and `ttl` |
| TxtRecords.AddIdempotent | index.js:254-283 | applying `addTxtRecord` with the same host and value to its own result does not throw and changes nothing |
| TxtRecords.DelFormFrame | index.js:300-317 | `delTxtRecord` keeps every field except `next`, the target's `txt` and the `del` of records carrying the host |
| TxtRecords.DelFormHosts | index.js:300-311 | after `delTxtRecord` the records carrying the host are those that did before plus the target, and each has `TXT::i::del = 1` |
| TxtRecords.DelFormTarget | index.js:285-317 | after `delTxtRecord` the target (appended when missing) holds the host, the value and `del = 1`, and `next` is empty |
| TxtRecords.DelFormNewKeys | index.js:293-315 | `delTxtRecord` adds no field except `next`, `del` markers of hosted records, the target's `txt` and a pushed record's `host` and `ttl` |
| TxtRecords.WriteBackExtract | index.js:240-277 | records written back (`TXT::i::p` for each property) into a form without record fields are read back by `recordsFromForm` with the same holes and the same properties; a trailing hole or a record with no property prints nothing and so is required away |
| TxtRecords.AddThenDel | index.js:254-318 | `delTxtRecord` after `addTxtRecord` for the same host does not throw and marks the record the add wrote: it holds the host, the delete's value and `del = 1` |
| TxtRecords.ContiguousNeverThrows | index.js:257 | when the form's record indices leave no gap, `records.find` meets no hole and neither transform throws |
| TxtEditor.FormObject.Set | index.js:274 | `form[k] = v` on the mutable form object is `Put` on its contents, and a valid form stays valid |
| TxtEditor.RecordsFromForm | index.js:240-252 | the loop over `Object.keys(form)` returns exactly the array `RecordsOf` specifies |
| TxtEditor.VisitField | index.js:244-250 | one `forEach` step: a `TXT::i::p` field sets `records[i][p]`, any other field is skipped |
| TxtEditor.FindRecord | index.js:257 | the scan returns the outcome `Find` specifies: found index, absent, or the hole where it throws |
| TxtEditor.UpsertRecord | index.js:257-267 | update-or-push returns what `Upsert` specifies, `None` when the scan throws |
| TxtEditor.WriteRecord | index.js:273-275 | writing one record back sets `TXT::i::k` for each of its keys in order |
| TxtEditor.WriteBackCleared | index.js:269-277 | the `forEach` of `addTxtRecord` writes `ClearDel` of the records back into the form and keeps it a valid form |
| TxtEditor.WriteBackMarked | index.js:300-312 | the `forEach` of `delTxtRecord` writes `MarkDel` of the records back into the form and keeps it a valid form |
| TxtEditor.AddTxtRecord | index.js:254-283 | the in-place `addTxtRecord` leaves the form equal to `AddForm` of the old form, or untouched and reports failure where the scan throws; the form stays valid, so the operations can be chained |
| TxtEditor.DelTxtRecord | index.js:285-318 | the in-place `delTxtRecord` leaves the form equal to `DelForm` of the old form, or untouched and reports failure where the scan throws; the form stays valid |
| UriComponent.Encode | index.js:138 | `encodeURIComponent` never produces `&` or `=` |
| UriComponent.DecodeEncode | index.js:138 | `decodeURIComponent(encodeURIComponent(s)) === s` for every string |
| UriComponent.EncodeInjective | index.js:138 | different names or values have different encodings |
| FormPayload.PayloadRoundTrip | index.js:137-139 | the body `Payload` builds splits on `&` back into its pairs, and decoding them gives every field with its value, in order |
| InputFold.FoldLastWins | index.js:220-230 | the form `FoldInputs` builds holds, for each name, the value of the last input with that name and a defined value; names with only `undefined` values are absent |
| InputFold.FoldKeyOrder | index.js:378-388 | a name is present exactly when some input sets it, and names are ordered by the first input that sets them |
| InputFold.EditResponseConfirm | index.js:378-391 | the confirm form `EditResponseForm` builds has `confirm` empty, every other field as the fold left it, and `confirm` last unless an input already set it |
| Login.LoginFormFields | index.js:171-172 | the login form `LoginForm` builds keeps the page's fields in order and has `login_user` = user and `login_pass` = the plaintext password |
| Login.LoginFormHash | index.js:173-177 | `login_hash`, as `LoginHash` computes it from the fields just written, is `md5(user ++ md5(pass) ++ chal)`, with `chal` the form's `login_chal`, or empty when the form has no `login_chal` value |
| Login.LoginFormKeeps | index.js:171-178 | every other field of the page is posted with the page's value |
| Login.LoginPayloadCarriesPassword | index.js:136-139 | the login body reads back as the login form's fields, among them the plaintext password |

## Left out

- HTTP, cookies, redirects, status logging and the session cache: all I/O is outside the model.
- HTML parsing is not modelled. The fold starts from the list of `<input>` elements, each with its `name` and `value` attributes. An absent attribute is `undefined`, as `node-html-parser`'s `getAttribute` returns.
- `md5` is a parameter. Its internals are not part of this model.
- Command-line handling and the order of the requests are not modelled. This includes the `callback(err)` at index.js:168-170, which is not followed by `return`.
- InputFold.FoldKeyOrder: `Object.keys` lists integer-like names (such as `"0"`) before the others. The model keeps pure insertion order. The same holds for the key order of the payload.
- TxtEditor.RecordsFromForm: JavaScript also acts on some malformed `TXT::` names, and the model ignores all of them:
  - `TXT::i` sets `records[i].undefined`;
  - `TXT::i::p::q` sets `records[i][p]`;
  - a non-canonical index such as `01` creates a non-index property of the array;
  - `TXT::length::p` makes `records.length[p] = …` assign to a number, which throws a `TypeError` in strict mode, so `addTxtRecord` and `delTxtRecord` throw where the model reports success.
- TxtRecords.RecordsOfCover: requires every `TXT::` field name to be canonical `TXT::<decimal>::<property>` (`WellFormed`); the malformed names listed above are outside it.
- TxtRecords.RecordsOfSound: requires every `TXT::` field name to be canonical `TXT::<decimal>::<property>` (`WellFormed`); the malformed names listed above are outside it.
- TxtRecords.AddFormFrame: requires every `TXT::` field name to be canonical `TXT::<decimal>::<property>` (`WellFormed`); the malformed names listed above are outside it.
- TxtRecords.AddFormTarget: requires every `TXT::` field name to be canonical `TXT::<decimal>::<property>` (`WellFormed`); the malformed names listed above are outside it.
- TxtRecords.AddFormNewKeys: requires every `TXT::` field name to be canonical `TXT::<decimal>::<property>` (`WellFormed`); the malformed names listed above are outside it.
- TxtRecords.AddIdempotent: requires every `TXT::` field name to be canonical `TXT::<decimal>::<property>` (`WellFormed`); the malformed names listed above are outside it.
- TxtRecords.DelFormFrame: requires every `TXT::` field name to be canonical `TXT::<decimal>::<property>` (`WellFormed`); the malformed names listed above are outside it.
- TxtRecords.DelFormHosts: requires every `TXT::` field name to be canonical `TXT::<decimal>::<property>` (`WellFormed`); the malformed names listed above are outside it.
- TxtRecords.DelFormTarget: requires every `TXT::` field name to be canonical `TXT::<decimal>::<property>` (`WellFormed`); the malformed names listed above are outside it.
- TxtRecords.DelFormNewKeys: requires every `TXT::` field name to be canonical `TXT::<decimal>::<property>` (`WellFormed`); the malformed names listed above are outside it.
- TxtRecords.ContiguousNeverThrows: requires every `TXT::` field name to be canonical `TXT::<decimal>::<property>` (`WellFormed`); the malformed names listed above are outside it.
- TxtRecords.DelFormTarget: `r.del = 1` stores the number 1, which the payload prints as `1`. The model stores the string `"1"`.
- Arrays are unbounded. The 2^32−2 limit on array indices is not modelled.
- Record objects are values. The object that `records.find` returns is the element of the array. So updating it in place equals replacing the element, and no aliasing is modelled.
- Login.LoginPayloadCarriesPassword: a `login_chal` input without a `value` attribute gives `form.login_chal === undefined`; the hash joins it as `''`, but the body still carries `login_chal=undefined`. The model cannot hold an `undefined` value, so such a form has no `login_chal` key and its body leaves the field out. (A page with no `login_chal` input at all never reaches `login`: `getAttribute` on `null` throws first, index.js:122-124.)
- Login.LoginFormFields: the user and the password are strings. When an environment variable is unset, the code gets `undefined`, which is not modelled.
- TxtEditor.AddTxtRecord: `state.txtValue` is a string. An unset value would write `undefined` into `TXT::j::txt`, which is not modelled.
- TxtEditor.DelTxtRecord: `state.txtValue` is a string, as for `AddTxtRecord`; an unset value (`existingRecord.txt = undefined`) is not modelled.
- UriComponent.Encode: a Dafny `char` is a Unicode scalar value, so the `URIError` that `encodeURIComponent` throws on a lone surrogate cannot arise in the model.
- `__proto__` and other field names with special meaning to JavaScript objects are not modelled.
