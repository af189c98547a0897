/**
 * The text files the handlers read, append to and overwrite. A file is the sequence of
 * lines Python's iteration over it yields, each with its line break if it has one.
 */
module Files {
  import opened Text

  /** The files the mirror works with, by role. */
  datatype FileName =
    | DeniedList          // denied-images.txt
    | IgnoreList          // ignore-images.txt
    | ImagesList          // required-images.txt
    | ImagesListTemplate  // required-images.txt.template
    | MirroredList        // mirrored-images.txt
    | FailedList          // failed-images.txt
    | DailyList           // required-images-daily.txt

  type Disk = map<FileName, seq<string>>

  /** The lines written for `entries`: `f.write(f"{x}\n")` for each in turn. */
  function AsLines(entries: seq<string>): (r: seq<string>)
    ensures |r| == |entries|
    ensures forall k :: 0 <= k < |r| ==> r[k] == entries[k] + "\n"
  {
    if entries == [] then [] else [entries[0] + "\n"] + AsLines(entries[1..])
  }

  /** A line that ends with a line break. */
  predicate EndsLine(line: string) {
    line != [] && line[|line| - 1] == '\n'
  }

  /** A file that is empty or whose last line ends with a line break. */
  predicate Terminated(lines: seq<string>) {
    lines == [] || EndsLine(lines[|lines| - 1])
  }

  /** The text a file holds: its lines one after another. */
  function Contents(lines: seq<string>): string {
    if lines == [] then [] else lines[0] + Contents(lines[1..])
  }

  /** The lines of a file whose text is split the way iteration splits it: no empty line, and a break only at a line's end. */
  predicate LineSplit(lines: seq<string>) {
    forall k :: 0 <= k < |lines| ==>
      && lines[k] != []
      && '\n' !in lines[k][..|lines[k]| - 1]
      && (k < |lines| - 1 ==> EndsLine(lines[k]))
  }

  /**
   * The lines of a file after `lines` were written at its end: a last line without a line break
   * runs on into the first line written.
   */
  function AppendText(prior: seq<string>, lines: seq<string>): (r: seq<string>)
    ensures |prior| > 0 ==> |prior| - 1 <= |r| && r[..|prior| - 1] == prior[..|prior| - 1]
    ensures Terminated(prior) ==> r == prior + lines
  {
    if prior != [] && lines != [] && !EndsLine(prior[|prior| - 1]) then
      prior[..|prior| - 1] + [prior[|prior| - 1] + lines[0]] + lines[1..]
    else prior + lines
  }

  /** The text of two runs of lines is the text of each, one after the other. */
  lemma {:induction false} ContentsConcat(a: seq<string>, b: seq<string>)
    ensures Contents(a + b) == Contents(a) + Contents(b)
  {
    if a != [] {
      assert (a + b)[0] == a[0] && (a + b)[1..] == a[1..] + b;
      ContentsConcat(a[1..], b);
    } else {
      assert a + b == b;
    }
  }

  /** Appending to a file leaves its text followed by the text written. */
  lemma AppendTextContents(prior: seq<string>, lines: seq<string>)
    ensures Contents(AppendText(prior, lines)) == Contents(prior) + Contents(lines)
  {
    if prior != [] && lines != [] && !EndsLine(prior[|prior| - 1]) {
      var init := prior[..|prior| - 1];
      var last := prior[|prior| - 1];
      var joined := last + lines[0];
      var rest := lines[1..];
      assert AppendText(prior, lines) == init + [joined] + rest;
      calc {
        Contents(init + [joined] + rest);
      == { ContentsConcat(init + [joined], rest); }
        Contents(init + [joined]) + Contents(rest);
      == { ContentsConcat(init, [joined]); ContentsSingle(joined); }
        Contents(init) + joined + Contents(rest);
      == { assert Contents(lines) == lines[0] + Contents(rest); }
        (Contents(init) + last) + Contents(lines);
      == { assert prior == init + [last]; ContentsConcat(init, [last]); ContentsSingle(last); }
        Contents(prior) + Contents(lines);
      }
    } else {
      ContentsConcat(prior, lines);
    }
  }

  lemma ContentsSingle(line: string)
    ensures Contents([line]) == line
  {
    assert [line][1..] == [];
  }

  /** Appending lines split as iteration splits them to a file so split gives the split of the joined text. */
  lemma AppendTextLineSplit(prior: seq<string>, lines: seq<string>)
    requires LineSplit(prior) && LineSplit(lines)
    ensures LineSplit(AppendText(prior, lines))
  {
    var r := AppendText(prior, lines);
    if prior != [] && lines != [] && !EndsLine(prior[|prior| - 1]) {
      var last := prior[|prior| - 1];
      var joined := last + lines[0];
      assert r[|prior| - 1] == joined;
      assert joined[..|joined| - 1] == last + lines[0][..|lines[0]| - 1];
      forall k | 0 <= k < |r|
        ensures r[k] != [] && '\n' !in r[k][..|r[k]| - 1] && (k < |r| - 1 ==> EndsLine(r[k]))
      {
        if k < |prior| - 1 {
          assert r[k] == prior[k];
        } else if k >= |prior| {
          assert r[k] == lines[k - |prior| + 1];
        }
      }
    } else {
      forall k | 0 <= k < |r|
        ensures r[k] != [] && '\n' !in r[k][..|r[k]| - 1] && (k < |r| - 1 ==> EndsLine(r[k]))
      {
        if k < |prior| {
          assert r[k] == prior[k];
        } else {
          assert r[k] == lines[k - |prior|];
        }
      }
    }
  }

  /** The lines of a file, none when it is missing. */
  function Held(disk: Disk, name: FileName): seq<string> {
    if name in disk then disk[name] else []
  }

  /**
   * A file opened with mode `a+`: created when missing, its text followed by the text written,
   * its lines kept when its last line ends with a line break, and no other file changed.
   */
  function Appended(disk: Disk, name: FileName, lines: seq<string>): (r: Disk)
    ensures r.Keys == disk.Keys + {name}
    ensures forall n :: n in disk && n != name ==> r[n] == disk[n]
    ensures Contents(r[name]) == Contents(Held(disk, name)) + Contents(lines)
    ensures Terminated(Held(disk, name)) ==> r[name] == Held(disk, name) + lines
  {
    AppendTextContents(Held(disk, name), lines);
    disk[name := AppendText(Held(disk, name), lines)]
  }

  /** The file system the handlers run against. */
  class FileStore {
    var disk: Disk

    constructor (initial: Disk)
      ensures disk == initial
    {
      disk := initial;
    }

    /** `open(name, 'r')` and iterating over it; None stands for FileNotFoundError. */
    method ReadLines(name: FileName) returns (lines: Option<seq<string>>)
      ensures lines.Some? <==> name in disk
      ensures lines.Some? ==> lines.value == disk[name]
    {
      if name in disk {
        lines := Some(disk[name]);
      } else {
        lines := None;
      }
    }

    /** `open(name, 'a+')` and one `write` per line. */
    method AppendLines(name: FileName, lines: seq<string>)
      modifies this
      ensures disk == Appended(old(disk), name, lines)
    {
      disk := Appended(disk, name, lines);
    }

    /** `shutil.copyfile(src, dst)`; False stands for FileNotFoundError on a missing source. */
    method CopyFile(src: FileName, dst: FileName) returns (ok: bool)
      modifies this
      ensures ok <==> src in old(disk)
      ensures disk == if ok then old(disk)[dst := old(disk)[src]] else old(disk)
    {
      ok := src in disk;
      if ok {
        disk := disk[dst := disk[src]];
      }
    }
  }
}
