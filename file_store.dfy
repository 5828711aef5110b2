/** The part of the file system the tree uses: directories, and files holding
    bytes. `fs::create_dir_all`, `File::create` and `write_all` are methods of a
    `FileSystem` object; whether the operating system lets each of them succeed
    is not something the tree controls, so every such call takes a `Fault`
    argument that says whether, and how, it fails. */
module FileStore {

  newtype byte = x: int | 0 <= x < 256

  /** The I/O errors the tree can see. */
  datatype IoError =
    | CreateDirFailed   // `create_dir_all` refused
    | NotFound          // `File::create` in a directory that does not exist
    | CreateFailed      // `File::create` refused for another reason
    | WriteFailed       // `write_all` stopped part way

  /** `io::Result<T>`. */
  datatype Result<T> = Ok(value: T) | Err(error: IoError)

  /** How the file operations of one flush behave. */
  datatype Fault =
    | NoFault
    | CreateFails
    | WriteFailsAfter(written: nat)   // `write_all` fails once `written` bytes are down, if it has more to write

  /** A file path: a directory and a file name in it (`dir.join(name)`). */
  datatype Path = Path(dir: string, name: string)

  function Digit(d: nat): char
    requires d < 10
  {
    "0123456789"[d]
  }

  function DigitValue(c: char): nat {
    if '0' <= c <= '9' then (c as int - '0' as int) as nat else 0
  }

  predicate IsDigit(c: char) {
    '0' <= c <= '9'
  }

  /** `format!("{}", n)`: the decimal digits of `n`, without leading zeros. */
  function DecimalString(n: nat): (s: string)
    ensures |s| > 0
    ensures forall i :: 0 <= i < |s| ==> IsDigit(s[i])
    ensures n >= 10 ==> s[0] != '0'
    decreases n
  {
    if n < 10 then [Digit(n)] else DecimalString(n / 10) + [Digit(n % 10)]
  }

  /** The number a string of decimal digits denotes. */
  function ParseDecimal(s: string): nat {
    if s == [] then 0 else ParseDecimal(s[..|s| - 1]) * 10 + DigitValue(s[|s| - 1])
  }

  /** Reading back a number's decimal string gives the number. */
  lemma {:induction false} ParseDecimalString(n: nat)
    ensures ParseDecimal(DecimalString(n)) == n
    decreases n
  {
    var s := DecimalString(n);
    if n < 10 {
      assert s[..0] == [];
    } else {
      ParseDecimalString(n / 10);
      assert s[..|s| - 1] == DecimalString(n / 10);
    }
  }

  /** Different numbers have different decimal strings. */
  lemma DecimalStringInjective(a: nat, b: nat)
    ensures DecimalString(a) == DecimalString(b) ==> a == b
  {
    ParseDecimalString(a);
    ParseDecimalString(b);
  }

  /** The path of segment `n` in directory `dir`: `dir.join(format!("{}", n))`.
      The name reads back as `n`, so different segment numbers name different
      files. */
  function SegmentPath(dir: string, n: nat): (p: Path)
    ensures p.dir == dir
    ensures ParseDecimal(p.name) == n
  {
    ParseDecimalString(n);
    Path(dir, DecimalString(n))
  }

  /** `write_all(data)` fails under `fault`: the fault strikes before every
      byte of `data` is down. A fault due at or after the end of `data` (for
      instance for empty `data`) never strikes, and the write succeeds. */
  predicate WriteFails(data: seq<byte>, fault: Fault) {
    fault.WriteFailsAfter? && fault.written < |data|
  }

  /** What reaches the file when `write_all(data)` runs under `fault`: all of
      `data` when the write succeeds, otherwise the strict prefix written
      before the failure. */
  function Written(data: seq<byte>, fault: Fault): (w: seq<byte>)
    ensures w <= data
    ensures w == data <==> !WriteFails(data, fault)
    ensures WriteFails(data, fault) ==> |w| == fault.written
  {
    if WriteFails(data, fault) then data[..fault.written] else data
  }

  /** Creating a file and then writing `b` to it leaves just `b` there. */
  lemma CreateThenWrite(files: map<Path, seq<byte>>, p: Path, b: seq<byte>)
    ensures files[p := []][p := [] + b] == files[p := b]
  {
    assert [] + b == b;
  }

  class FileSystem {
    var dirs: set<string>
    var files: map<Path, seq<byte>>

    /** A file system that already holds `dirs` and `files`. */
    constructor (dirs0: set<string>, files0: map<Path, seq<byte>>)
      ensures dirs == dirs0 && files == files0
    {
      dirs := dirs0;
      files := files0;
    }

    /** `fs::create_dir_all(dir)`: afterwards `dir` exists, unless it fails. An
        existing directory is not an error. */
    method CreateDirAll(dir: string, fails: bool) returns (r: Result<()>)
      modifies this
      ensures r == if fails then Err(CreateDirFailed) else Ok(())
      ensures dirs == if fails then old(dirs) else old(dirs) + {dir}
      ensures files == old(files)
    {
      if fails {
        r := Err(CreateDirFailed);
      } else {
        dirs := dirs + {dir};
        r := Ok(());
      }
    }

    /** `File::create(path)`: creates the file, or truncates it if it exists.
        It fails when the directory does not exist, or when the fault says so. */
    method Create(path: Path, fault: Fault) returns (r: Result<()>)
      modifies this
      ensures r == if path.dir !in old(dirs) then Err(NotFound)
                   else if fault == CreateFails then Err(CreateFailed)
                   else Ok(())
      ensures files == if r.Ok? then old(files)[path := []] else old(files)
      ensures dirs == old(dirs)
    {
      if path.dir !in dirs {
        r := Err(NotFound);
      } else if fault == CreateFails {
        r := Err(CreateFailed);
      } else {
        files := files[path := []];
        r := Ok(());
      }
    }

    /** `write_all(data)` on the open file `path`: appends all of `data` and
        succeeds, or, when the fault strikes first, appends only the bytes
        written before it and fails. */
    method WriteAll(path: Path, data: seq<byte>, fault: Fault) returns (r: Result<()>)
      requires path in files
      modifies this
      ensures r == if WriteFails(data, fault) then Err(WriteFailed) else Ok(())
      ensures files == old(files)[path := old(files)[path] + Written(data, fault)]
      ensures dirs == old(dirs)
    {
      var w := data;
      r := Ok(());
      if fault.WriteFailsAfter? && fault.written < |data| {
        w := data[..fault.written];
        r := Err(WriteFailed);
      }
      files := files[path := files[path] + w];
    }
  }
}
