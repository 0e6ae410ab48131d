# Chat adapter: response reshaping and run polling

The service is a thin HTTP front for a hosted assistant API. For each chat
turn it appends the user's text to a conversation thread, starts an assistant
run, waits until the run leaves its non-terminal states, fetches the thread's
messages in chronological order and returns them as a *response envelope*: a
dict from role (`"user"`, `"assistant"`, ...) to the list of that role's
message texts.

This project models the two pieces of self-contained logic in `main.py`:

- `response_dict`, which builds the envelope in a loop (`response_dict.dfy`),
  checked against a pure specification of the grouping (`grouping.dfy`) over
  the message model in `messages.dfy`;
- the exit condition of `wait_on_run`, the poll loop over the run status
  (`polling.dfy`).

Modelling choices:

- A message is `Msg(role, content)`, where `content` is its list of content
  blocks and a block is either `Text(value)` or `NonText(kind)`. The text the
  helper keeps is `m.content[0].text.value`. An empty content list raises an
  index error there, and a first block without text raises an attribute
  error. Both are modelled as the `Err` branch of a `Result`. They are not a
  precondition, because the chat handler catches any exception and reports
  it (main.py:117-119).
- The Python dict is modelled with its insertion order: `Dict(keys, lists)`.
  The keys are listed in the order their roles first occur, which is the
  order the JSON response shows.
- The specification `Grouping.Response` maps each role that occurs to the
  filter of the messages by that role, mapped to text (`Grouping.TextsOf`).
  Its key order is `Grouping.KeyOrder`. Lemmas characterise that order
  without reference to the loop: each role appears once, the keys are exactly
  the roles that occur, and they are sorted by first occurrence.
- The remote status lookup in `wait_on_run` is an oracle. The k-th re-fetch
  returns `answers[k]`. If every answer is still pending, the outcome is
  `StillPolling`: the real loop would go on polling, with no bound.

## Model

| member | source | states |
|---|---|---|
| `ResponseDict.ResponseDict` | main.py:23-32 | The loop succeeds exactly when every message's first content block is text. It then returns the envelope `Grouping.Response`: keys in first-occurrence order, each role mapped to its texts in input order. Otherwise it fails with the error (index or attribute error) of the first unreadable message. No messages give the empty dict. |
| `Messages.FirstUnreadable` | main.py:25-31 | When some message's text cannot be read, this names the message whose read raises first: an index inside the sequence whose message cannot be read. |
| `Messages.FirstUnreadableAt` | main.py:25-31 | If message i cannot be read and every earlier message can, then i is the first unreadable message. |
| `Grouping.ResponseSnoc` | main.py:25-31 | Loop step: one more message adds its role to the key order only if that role is new, and its text is appended to that role's list, which starts empty for a new role. |
| `Grouping.GroupAppend` | main.py:25-31 | One more message adds exactly its role to the keys and extends that role's list by its text. Every other role's list is unchanged. |
| `Grouping.GroupKeys` | main.py:25-28 | A role is a key of the envelope if and only if some message has that role. |
| `Grouping.GroupPosition` | main.py:25-31 | Message i's text sits in its role's list at index n, where n is the number of earlier messages with the same role. So texts keep their chronological order within a role. |
| `Grouping.GroupNonEmpty` | main.py:27-31 | Every list in the envelope is non-empty: a key is created only when a message of that role is seen, and that message's text is appended at once. |
| `Grouping.ResponseSize` | main.py:25-31 | The list lengths, summed over the keys, equal the number of messages: every message contributes exactly one entry. |
| `Grouping.ResponseEmpty` | main.py:24-32 | An empty message sequence gives the empty dict. |
| `Grouping.KeyOrderSpec` | main.py:27-28 | The dict's keys are distinct and are exactly the roles that occur. They are ordered by the position where each role first occurs. |
| `Grouping.TextsOfAppend` | main.py:25-31 | A role's texts for a concatenation are its texts for the first part followed by its texts for the second part. |
| `Grouping.TextsOfAbsent` | main.py:27-28 | A role that no message has gets no texts. |
| `Grouping.TextsOfPresent` | main.py:27-31 | A role that some message has gets at least one text. |
| `Grouping.FirstIndexBound` | main.py:27-28 | The first occurrence of a role that occurs lies inside the message sequence and has that role. |
| `Grouping.SizeBump` | main.py:31 | Appending one text to the list of a key already present adds one to the dict's total entry count. |
| `Polling.WaitOnRun` | main.py:35-42 | If the loop returns a run, that run's status is neither "queued" nor "in_progress". It is the first observed run that is not pending (the initial run, then each re-fetch in turn). A run that is terminal from the start is returned unchanged, with no re-fetch. If every observed status is pending, the loop is still polling. |

## Left out

- The remote assistant API calls are not modelled: thread create and retrieve, message create and list, `create_and_poll`, and run retrieve (main.py:74, 81, 84-95, 100-111, 129-131). Their behaviour lies in a remote service; run retrieve appears only as the `answers` oracle.
- The half-second sleep between polls (main.py:41). It is a blocking wait with no effect on the outcome.
- Polling.WaitOnRun: makes no termination or timing claim. The real loop has no bound; the model sees only a finite prefix of the remote's answers and reports `StillPolling` when that prefix is all pending.
- HTTP routing, request-body validation and the mapping of exceptions to HTTP 500 responses (main.py:17-19, 45-54, 76-77, 117-119, 122-135).
- Reading the API key and assistant id from the environment, and the global client (main.py:9-14).
- The unused `messages` and `messages_last` fetches, and the printing of a non-completed status (main.py:98-107). They do not affect the response.
- Message fields other than the role and the content blocks (ids, timestamps, attachments). The helper drops them.
