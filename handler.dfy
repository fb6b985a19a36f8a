/**
 * The command handlers (`action` in handler.go). Each one picks exactly one response, writes
 * it once as a newline, a body and a newline, and returns the outcome of that write and
 * nothing else. The registry is a parameter: a function giving its answer to the one call
 * the handler may make, so that "the registry is not called" and "it is called with these
 * arguments" can be stated as what the result does not, or only does, depend on.
 */
module Handler {
  import opened Wrappers
  import opened Text
  import Registry

  /** Every response the service writes. */
  datatype Reply =
    | NoName
    | AddFailed(reason: string)
    | PackageAdded
    | RemoveFailed(reason: string)
    | PackageRemoved
    | Listed(text: string)
    | UnknownAction

  const NoNameBody := "ERROR: no package name"
  const AddFailedPrefix := "ERROR: failed adding package: "
  const AddedBody := "Package added"
  const RemoveFailedPrefix := "ERROR: failed removing package: "
  const RemovedBody := "Package removed"
  const UnknownBody := "ERROR: unknown action"

  function Body(r: Reply): string
  {
    match r
    case NoName => NoNameBody
    case AddFailed(reason) => AddFailedPrefix + reason
    case PackageAdded => AddedBody
    case RemoveFailed(reason) => RemoveFailedPrefix + reason
    case PackageRemoved => RemovedBody
    case Listed(text) => text
    case UnknownAction => UnknownBody
  }

  /** The bytes of one response on the connection. */
  function Wire(r: Reply): (w: string)
    ensures |w| >= 2 && w[0] == '\n' && w[|w| - 1] == '\n'
    ensures w[1..|w| - 1] == Body(r)
  {
    "\n" + Body(r) + "\n"
  }

  /** A listing is told apart from the fixed responses by its header. */
  predicate WellFormed(r: Reply)
  {
    r.Listed? ==> StartsWith(r.text, Registry.Header)
  }

  /** Reads a response back from the bytes written; every result it gives is written exactly so. */
  function Decode(s: string): (r: Option<Reply>)
    ensures r.Some? ==> WellFormed(r.value) && Wire(r.value) == s
  {
    if |s| < 2 || s[0] != '\n' || s[|s| - 1] != '\n' then None
    else
      var body := s[1..|s| - 1];
      assert s == "\n" + body + "\n";
      if body == NoNameBody then Some(NoName)
      else if body == AddedBody then Some(PackageAdded)
      else if body == RemovedBody then Some(PackageRemoved)
      else if body == UnknownBody then Some(UnknownAction)
      else if StartsWith(body, AddFailedPrefix) then
        assert body == AddFailedPrefix + body[|AddFailedPrefix|..];
        Some(AddFailed(body[|AddFailedPrefix|..]))
      else if StartsWith(body, RemoveFailedPrefix) then
        assert body == RemoveFailedPrefix + body[|RemoveFailedPrefix|..];
        Some(RemoveFailed(body[|RemoveFailedPrefix|..]))
      else if StartsWith(body, Registry.Header) then Some(Listed(body))
      else None
  }

  /** The written bytes identify the response: decoding them gives it back. */
  lemma DecodeWire(r: Reply)
    requires WellFormed(r)
    ensures Decode(Wire(r)) == Some(r)
  {
    var s := Wire(r);
    assert s[1..|s| - 1] == Body(r);
    match r
    case NoName =>
    case PackageAdded =>
    case PackageRemoved =>
    case UnknownAction =>
    case AddFailed(reason) => DecodeAddFailed(reason);
    case RemoveFailed(reason) => DecodeRemoveFailed(reason);
    case Listed(text) => DecodeListed(text);
  }

  lemma DecodeAddFailed(reason: string)
    ensures Decode(Wire(AddFailed(reason))) == Some(AddFailed(reason))
  {
    var body := AddFailedPrefix + reason;
    assert body[0] == 'E' && body[7] == 'f';
    assert body[..|AddFailedPrefix|] == AddFailedPrefix;
  }

  lemma DecodeRemoveFailed(reason: string)
    ensures Decode(Wire(RemoveFailed(reason))) == Some(RemoveFailed(reason))
  {
    var body := RemoveFailedPrefix + reason;
    assert body[0] == 'E' && body[7] == 'f' && body[14] == 'r';
    assert body[..|RemoveFailedPrefix|] == RemoveFailedPrefix;
  }

  lemma DecodeListed(text: string)
    requires StartsWith(text, Registry.Header)
    ensures Decode(Wire(Listed(text))) == Some(Listed(text))
  {
    assert text[..|Registry.Header|] == Registry.Header;
    assert text[0] == 'P' && text[7] == 's';
  }

  /** What a handler call amounts to: the bytes it writes and the error it returns. */
  datatype Outcome = Outcome(written: string, err: Option<string>)

  /**
   * The response of `addPackage` to `args`, where `add(name, deps)` is the error, if any,
   * of the registry's `add`.
   */
  function AddReply(args: seq<string>, add: (string, seq<string>) -> Option<string>): (r: Reply)
    ensures WellFormed(r)
    ensures r == NoName <==> |args| == 0
    ensures r == PackageAdded <==> |args| > 0 && add(args[0], args[1..]).None?
    ensures r.AddFailed? <==> |args| > 0 && add(args[0], args[1..]).Some?
    ensures r.AddFailed? ==> r.reason == add(args[0], args[1..]).value
  {
    if |args| == 0 then NoName
    else
      var err := add(args[0], args[1..]);
      if err.Some? then AddFailed(err.value) else PackageAdded
  }

  /**
   * `addPackage`: one write of the reply, whose outcome `writeErr` is all it returns; a
   * failure of the registry only changes the bytes.
   */
  function AddPackage(args: seq<string>, add: (string, seq<string>) -> Option<string>, writeErr: Option<string>): (o: Outcome)
    ensures |args| == 0 ==> o.written == "\n" + NoNameBody + "\n"
    ensures |args| > 0 && add(args[0], args[1..]).None? ==> o.written == "\n" + AddedBody + "\n"
    ensures |args| > 0 && add(args[0], args[1..]).Some? ==>
              o.written == "\n" + AddFailedPrefix + add(args[0], args[1..]).value + "\n"
    ensures o.err == writeErr
  {
    Outcome(Wire(AddReply(args, add)), writeErr)
  }

  /** The response of `removePackage`, where `remove(name)` is the error, if any, of the registry's `remove`. */
  function RemoveReply(args: seq<string>, remove: string -> Option<string>): (r: Reply)
    ensures WellFormed(r)
    ensures r == NoName <==> |args| == 0
    ensures r == PackageRemoved <==> |args| > 0 && remove(args[0]).None?
    ensures r.RemoveFailed? <==> |args| > 0 && remove(args[0]).Some?
    ensures r.RemoveFailed? ==> r.reason == remove(args[0]).value
  {
    if |args| == 0 then NoName
    else
      var err := remove(args[0]);
      if err.Some? then RemoveFailed(err.value) else PackageRemoved
  }

  /** `removePackage`: one write of the reply, whose outcome is all it returns. */
  function RemovePackage(args: seq<string>, remove: string -> Option<string>, writeErr: Option<string>): (o: Outcome)
    ensures |args| == 0 ==> o.written == "\n" + NoNameBody + "\n"
    ensures |args| > 0 && remove(args[0]).None? ==> o.written == "\n" + RemovedBody + "\n"
    ensures |args| > 0 && remove(args[0]).Some? ==>
              o.written == "\n" + RemoveFailedPrefix + remove(args[0]).value + "\n"
    ensures o.err == writeErr
  {
    Outcome(Wire(RemoveReply(args, remove)), writeErr)
  }

  /** `listPackages`: the registry's listing `list`, verbatim between two newlines. */
  function ListPackages(list: string, writeErr: Option<string>): (o: Outcome)
    ensures o.written == "\n" + list + "\n"
    ensures o.err == writeErr
  {
    Outcome(Wire(Listed(list)), writeErr)
  }

  /** What `addPackage` writes decodes as its reply. */
  lemma AddDecodes(args: seq<string>, add: (string, seq<string>) -> Option<string>, writeErr: Option<string>)
    ensures Decode(AddPackage(args, add, writeErr).written) == Some(AddReply(args, add))
  {
    DecodeWire(AddReply(args, add));
  }

  /** What `removePackage` writes decodes as its reply. */
  lemma RemoveDecodes(args: seq<string>, remove: string -> Option<string>, writeErr: Option<string>)
    ensures Decode(RemovePackage(args, remove, writeErr).written) == Some(RemoveReply(args, remove))
  {
    DecodeWire(RemoveReply(args, remove));
  }

  /** The listing the registry produces always decodes as a listing. */
  lemma ListingDecodes(m: Registry.Packages, rank: map<string, nat>, writeErr: Option<string>)
    requires Registry.Ranked(m, rank) && Registry.NoNewlines(m)
    ensures Decode(ListPackages(Registry.Listing(m, rank), writeErr).written) == Some(Listed(Registry.Listing(m, rank)))
  {
    Registry.ListingHeader(m, rank);
    DecodeWire(Listed(Registry.Listing(m, rank)));
  }

  /** Without a name `addPackage` answers the same whatever the registry would have said: it does not ask it. */
  lemma AddWithoutName(add1: (string, seq<string>) -> Option<string>, add2: (string, seq<string>) -> Option<string>,
                       writeErr: Option<string>)
    ensures AddPackage([], add1, writeErr) == AddPackage([], add2, writeErr)
  {
    assert AddReply([], add1) == AddReply([], add2);
  }

  /** The registry is asked only about the first argument as the name and the rest as the dependencies. */
  lemma AddAsksNameAndDeps(args: seq<string>, add1: (string, seq<string>) -> Option<string>,
                           add2: (string, seq<string>) -> Option<string>, writeErr: Option<string>)
    requires |args| > 0 && add1(args[0], args[1..]) == add2(args[0], args[1..])
    ensures AddPackage(args, add1, writeErr) == AddPackage(args, add2, writeErr)
  {
    assert AddReply(args, add1) == AddReply(args, add2);
  }

  /** Without a name `removePackage` does not ask the registry. */
  lemma RemoveWithoutName(remove1: string -> Option<string>, remove2: string -> Option<string>, writeErr: Option<string>)
    ensures RemovePackage([], remove1, writeErr) == RemovePackage([], remove2, writeErr)
  {
    assert RemoveReply([], remove1) == RemoveReply([], remove2);
  }

  /** Only the first argument reaches the registry; the others are ignored. */
  lemma RemoveAsksFirstOnly(args: seq<string>, extra: seq<string>, remove: string -> Option<string>, writeErr: Option<string>)
    requires |args| > 0
    ensures RemovePackage(args + extra, remove, writeErr) == RemovePackage(args[..1], remove, writeErr)
  {
    assert (args + extra)[0] == args[..1][0];
    assert RemoveReply(args + extra, remove) == RemoveReply(args[..1], remove);
  }
}
