# OKR service — verified model

A Dafny model of the core of a small Objectives & Key Results backend. The
backend keeps three linked tables: persons, objectives and requirements. It
serves eight HTTP routes over them, and each route is guarded by a permission
string.

The relational database is replaced by a `Store` class. The store holds one
map per table, keyed by id, and one id sequence per table. Its methods are
`insert`, `update` and `delete` of `models.py`. They enforce the NOT NULL and
foreign-key constraints and the declared cascades.

Each route of `okr/__init__.py` is a handler that takes the caller's
credential, the path id (a `nat`, as Flask's `<int:...>` converter only matches digits), the `page` argument and the decoded JSON body. It
returns a `Response` (status code and payload):
- the three GET handlers are functions over the tables;
- the five handlers that change data are methods that update the store in place.

Files:

- `python.dfy` (module `Python`): the Python semantics the code relies on.
  This covers a JSON body value, `dict.get`, `==` between an int and a body
  value (`True == 1`, `1.0 == 1`), `len`, slicing with negative bounds and
  `str.join`.
- `models.py` → `models.dfy` (module `Models`): rows, the constructors, the
  column and foreign-key checks, the cascades, `ORDER BY id`, `format`,
  `get_name`, and the `Store` class.
- `okr/__init__.py` → `okr.dfy` (module `Okr`): `ITEMS_PER_PAGE`,
  `paginate_items`, the permission check, and the eight handlers.
- `scenario.dfy` (module `Scenario`): one objective's life cycle driven
  through the handlers, with the outcome a client sees proved.

Where the documented behaviour and the code disagree, the model follows the code:
- A missing requirement on PATCH ends in 422, not 404. So does a missing
  objective on POST requirement. The `abort(404)` is raised inside a bare
  `try/except` that re-aborts with 422 (okr/__init__.py:134-163 and
  okr/__init__.py:174-191).
- POST /objectives is not all-or-nothing. The objective is committed before
  its requirement is inserted. If the requirement is rejected, the response
  is 422 and the new objective stays (okr/__init__.py:204-215).
- `page` is not checked. Page 0 is always empty. A negative page selects a
  window counted from the end of the list, as Python slicing does
  (okr/__init__.py:14-19).

## Model

| member | source | states |
|---|---|---|
| Python.Get | okr/__init__.py:135-137 | `body.get(key)` fails exactly when the body is not a dict; a missing key gives None |
| Python.Len | okr/__init__.py:219 | `len` is defined exactly on strings, lists and dicts, and is the character count of a string |
| Python.SliceWindow | okr/__init__.py:19 | `s[start:end]` is the run of `s` between the two normalised bounds, and its length is their difference |
| Python.JoinLength | models.py:82 | the length of `sep.join(parts)` is the parts' total length plus one separator per gap |
| Python.JoinSplit | models.py:82 | `sep.join(parts)` splits at any gap k into the join of the first k parts, the separator, and the join of the rest |
| Python.JoinPair | models.py:82 | joining two parts gives the first part, then the separator, then the second part |
| Models.PersonRow | models.py:34-37 | a person is stored exactly when name and first name are strings and `is_boss` is a boolean, with those values |
| Models.ObjectiveRow | models.py:74-76 | an objective is stored exactly when its description is a string and `person` is the id of an existing person |
| Models.RequirementRow | models.py:115-118 | a requirement is stored exactly when description is a string, `is_met` a boolean and `objective` the id of an existing objective |
| Models.InitRequirementNotMet | models.py:120-123 | a constructed requirement is accepted exactly when its description is a string and its objective exists, and it is then stored as not met, whatever the caller passed |
| Models.InitPersonNotBoss | models.py:41-44 | a person constructed without `is_boss` is stored with `is_boss` false |
| Models.RowsKeepLinks | models.py:116-118 | adding any row that passed its column and foreign-key checks keeps every objective's person and every requirement's objective present |
| Models.DropRequirement | models.py:132-134 | deleting a requirement removes that key only and leaves persons, objectives and every other requirement as they were |
| Models.DropRequirementKeepsLinks | models.py:132-134 | deleting a requirement leaves no dangling foreign key |
| Models.DropObjectiveCascades | models.py:78 | deleting an objective removes exactly it and the requirements whose `objective` is its id; everything else is kept; no dangling key remains |
| Models.DropPersonCascades | models.py:39 | deleting a person removes it, exactly its objectives and exactly their requirements; everything else is kept; no dangling key remains |
| Models.OrderedIds | okr/__init__.py:35 | `order_by(id).all()` lists ids of the set only, as many as the set holds, strictly ascending |
| Models.OrderedIdsComplete | okr/__init__.py:73 | every id of the set appears in the ordered list |
| Models.GetName | models.py:80-82 | `get_name` is the owner's name, ", ", then the owner's first name |
| Models.FormatPerson | models.py:57-63 | a formatted person carries its own id and the row's name, first name and `is_boss` |
| Models.FormatObjective | models.py:99-105 | a formatted objective carries its id, description and person, and its owner's complete name |
| Models.FormatRequirement | models.py:136-143 | a formatted requirement carries its id, the row's `is_met` and description, its owner's id as `objective_id` and its owner's description as `objective_description` |
| Models.Store.InsertPerson | models.py:46-48 | inserts one person under a fresh id when its columns are accepted; otherwise nothing changes |
| Models.Store.InsertObjective | models.py:88-90 | inserts one objective under a fresh id when its columns are accepted and its person exists; otherwise nothing changes |
| Models.Store.InsertRequirement | models.py:125-127 | inserts one requirement under a fresh id when its columns are accepted and its objective exists; otherwise nothing changes |
| Models.Store.UpdatePerson | models.py:50-51 | commits the attributes assigned on that person if the columns accept them; nothing else changes |
| Models.Store.UpdateObjective | models.py:92-93 | commits the attributes assigned on that objective if the columns and its person are valid; nothing else changes |
| Models.Store.UpdateRequirement | models.py:129-130 | commits the attributes assigned on that requirement if the columns and its objective are valid; nothing else changes |
| Models.Store.DeletePerson | models.py:53-55 | removes the person with its cascade and keeps the tables linked |
| Models.Store.DeleteObjective | models.py:95-97 | removes the objective with its requirements and keeps the tables linked |
| Models.Store.DeleteRequirement | models.py:132-134 | removes that requirement only and keeps the tables linked |
| Okr.Authorize | okr/__init__.py:27-28 | a request passes exactly when a verified token grants the route's permission; a missing header, a token that fails verification and a verified token lacking the permission are each reported as exactly that reason |
| Okr.PaginateItems | okr/__init__.py:8-21 | the page is a run of consecutive items; for page >= 1 it is items `[(page-1)*5, page*5)`, of length `min(5, max(0, n-(page-1)*5))`; page 0 is empty; a negative page counts from the end |
| Okr.PageAt | okr/__init__.py:15-19 | item k of a page is the item at the page's start plus k |
| Okr.EmptyPage | okr/__init__.py:36-39 | for page >= 1 a page is empty exactly when the earlier pages hold every item |
| Okr.PersonViews | okr/__init__.py:35-36 | the formatted selection holds one entry per person, each the formatted row of a person of the table, in strictly ascending id order |
| Okr.PersonViewsComplete | okr/__init__.py:35-36 | every person of the table appears in the formatted selection |
| Okr.ObjectiveViews | okr/__init__.py:54-55 | the formatted selection holds one entry per objective, each the formatted row of an objective of the table, in strictly ascending id order |
| Okr.ObjectiveViewsComplete | okr/__init__.py:54-55 | every objective of the table appears in the formatted selection |
| Okr.PersonPage | okr/__init__.py:35-36 | a page of persons is formatted rows of the table in strictly ascending id order, starting from page 1 at the ((page-1)*5)-th smallest id |
| Okr.ObjectivePage | okr/__init__.py:54-55 | the same for a page of objectives |
| Okr.RetrievePersons | okr/__init__.py:27-44 | 401 when the permission check refuses; else 404 exactly when the page is empty (page 0 always; for page >= 1 when `n <= (page-1)*5`); else 200 with the persons of that page in ascending id order |
| Okr.RetrieveObjectives | okr/__init__.py:46-63 | the same for objectives, each carrying its owner's complete name |
| Okr.RequirementViews | okr/__init__.py:73-74 | the formatted selection holds every requirement of the objective and nothing else, once each, in ascending id order |
| Okr.RetrieveRequirements | okr/__init__.py:65-82 | 401 when refused; else 404 exactly when the objective owns no requirement; else 200 with exactly its requirements in ascending id order, each with the objective's id and description |
| Okr.DeleteObjective | okr/__init__.py:84-103 | 401 or 404 (missing id) leave the store unchanged; otherwise 200 with `deleted_id` equal to the path id, and the objective and its requirements are gone |
| Okr.DeleteRequirement | okr/__init__.py:105-124 | 401 or 404 (missing id) leave the store unchanged; otherwise 200 with `deleted_id` equal to the path id, and only that requirement is gone |
| Okr.UpdateRequirement | okr/__init__.py:126-163 | never 404. 422 with nothing changed when the body is not a dict, its `requirement_id` differs from the path id, the requirement is missing, its `objective_id` differs from the owner, or `is_met` is not a boolean. Otherwise only `is_met` changes, and the reply is the previous status, the new status and `changed == (old != new)`, true exactly when the store changed |
| Okr.NewRequirement | okr/__init__.py:166-191 | never 404. 422 with nothing changed when the objective is missing, the body is not a dict or the description is not a string. Otherwise exactly one requirement is added under a fresh id, not met, owned by the path objective (the body's `objective_id` is ignored) |
| Okr.NewObjective | okr/__init__.py:193-221 | 422 with nothing changed when the objective is refused. Otherwise the objective is added under a fresh id. If `requirements` is then refused: 422 and the objective stays. Otherwise one requirement is added, not met, with that text, and `n_requirements` is its character count |
| Scenario.CreateAndList | test_okr.py:246-264 | a boss's POST /objectives on an empty store creates an objective with one not-met requirement, which the employee's listing shows with the objective's description |
| Scenario.CompleteAndDelete | test_okr.py:123-187 | the employee's PATCH gives `changed` true and a repeat gives false; the employee's DELETE is refused with 401 for a missing permission (as test_okr.py:371-379 expects); the boss's DELETE succeeds and the listing is then 404 |
| Scenario.ObjectiveLifeCycle | test_okr.py:246-264 | the whole life cycle as a client observes it: create, list, complete twice, refused delete, delete, not found |

## Left out

- Flask plumbing is not modelled: `create_app`, routing, `request.args`, `get_json` and `jsonify`. A handler takes its inputs as values: a `Credential`, the path id, the page argument as `Option<int>` (None for absent or unparseable, which gives page 1) and the decoded body as a `Value`. An unreadable body is modelled as a non-dict body, which ends in 422 just as the failed `get_json` does. The error handlers are modelled only as the `NotFound` and `Malformed` responses with their messages.
- The token checks of `auth/auth.py` are not part of this model: header parsing, JWT signature, expiry, issuer and audience. A credential is either a missing header, a token that fails verification, or a verified token with its permission set. The check is a membership test run before the handler body. Every refusal gives 401 with the reason as a `Denial`. The auth module's message texts are not modelled.
- SQLAlchemy sessions, commits, rollbacks, Flask-Migrate and `setup_db` are replaced by the in-memory `Store`. Each store method is one committed operation.
- Concurrent workers and transaction isolation are not modelled. Every operation runs alone.
- Models.PersonRow, Models.ObjectiveRow, Models.RequirementRow: a column accepts only a JSON value of its own type: a string for text, a boolean for `is_met`/`is_boss`, an integer for a foreign key. PostgreSQL's assignment casts are not modelled, and neither is SQLAlchemy's acceptance of the integers 0 and 1 in a boolean column. For example, a number stored into a text column as its digits, or a numeric string or float used as an integer key, is treated as rejected. With such a cast, POST /objectives could store a non-string `requirements` value and then fail in `len` after both inserts.
- Models.Store.InsertPerson, Models.Store.InsertObjective, Models.Store.InsertRequirement: an id sequence advances only when an insert succeeds. The contracts promise only that each new id is fresh. A PostgreSQL sequence can also use up a value on a failed insert.
- `create_dummy_data.py` (a seeding script) and `test_okr.py` (HTTP tests against a live database) are not modelled. The scenario follows the tests' expectations: a boss token holds all eight permissions, an employee token holds the three read permissions and `patch:requirements`.
