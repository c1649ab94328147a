/** The main loop of `convert_figma_components.py`: every component of a fixed list is sent
    to the assistant in turn and ends up counted as converted or as failed. The file system
    and the service are inputs: what reading the component's file gave, whether the run
    completed, and the reply it left. */
module FigmaConversion {
  import opened Wrappers

  /** A component to convert: its name and its file under the components directory. */
  datatype Component = Component(name: string, fileName: string)

  /** What happened to one component: the text read from its file (`None` when the file
      does not exist or cannot be read), whether `run_assistant` reported completion, and
      what `get_latest_message` returned. */
  datatype Attempt = Attempt(code: Option<string>, completed: bool, reply: Option<string>)

  /** The components, in priority order. */
  const Components: seq<Component> := [
    Component("Post", "Post.tsx"),
    Component("Stories", "Stories.tsx"),
    Component("BottomNavigation", "BottomNavigation.tsx"),
    Component("Header", "Header.tsx"),
    Component("NavigationTabs", "NavigationTabs.tsx"),
    Component("Following", "Following.tsx"),
    Component("Explore", "Explore.tsx"),
    Component("Live", "Live.tsx"),
    Component("RateYourDate", "RateYourDate.tsx"),
    Component("Notifications", "Notifications.tsx"),
    Component("MyProfile", "MyProfile.tsx"),
    Component("UserProfile", "UserProfile.tsx"),
    Component("ProfileCard", "ProfileCard.tsx"),
    Component("EditProfile", "EditProfile.tsx"),
    Component("MessagesPage", "MessagesPage.tsx"),
    Component("MessagingInterface", "MessagingInterface.tsx"),
    Component("ConversationInputBar", "ConversationInputBar.tsx"),
    Component("PostCreationModal", "PostCreationModal.tsx"),
    Component("PostDetailModal", "PostDetailModal.tsx"),
    Component("ShareModal", "ShareModal.tsx"),
    Component("StoryViewer", "StoryViewer.tsx")
  ]

  /** `if not component_code`: a missing, unreadable or empty file skips the component. */
  predicate Skipped(a: Attempt) {
    a.code.None? || a.code.value == []
  }

  /** A component is converted when its file had code, the run completed and a non-empty
      text reply came back (`if conversion_result`). */
  predicate Converts(a: Attempt) {
    !Skipped(a) && a.completed && a.reply.Some? && a.reply.value != []
  }

  /** How many attempts convert. */
  function ConvertedCount(attempts: seq<Attempt>): (n: nat)
    ensures n <= |attempts|
  {
    if attempts == [] then 0
    else ConvertedCount(attempts[..|attempts| - 1]) + if Converts(attempts[|attempts| - 1]) then 1 else 0
  }

  /** What the loop saves, in order: the name and the reply of every component that
      converts (`save_conversion(component_name, conversion_result)`). */
  function SavedReplies(components: seq<Component>, attempts: seq<Attempt>): (saved: seq<(string, string)>)
    requires |attempts| == |components|
    ensures |saved| == ConvertedCount(attempts)
    ensures forall s :: s in saved ==>
      exists i :: 0 <= i < |components| && Converts(attempts[i]) && s == (components[i].name, attempts[i].reply.value)
  {
    if attempts == [] then []
    else
      var k := |attempts| - 1;
      var before := SavedReplies(components[..k], attempts[..k]);
      assert forall s :: s in before ==>
        exists i :: 0 <= i < k && Converts(attempts[i]) && s == (components[i].name, attempts[i].reply.value);
      before + if Converts(attempts[k]) then [(components[k].name, attempts[k].reply.value)] else []
  }

  /** Every component that converts has its reply saved. */
  lemma {:induction false} SavedRepliesComplete(components: seq<Component>, attempts: seq<Attempt>, i: nat)
    requires |attempts| == |components| && i < |attempts| && Converts(attempts[i])
    ensures (components[i].name, attempts[i].reply.value) in SavedReplies(components, attempts)
  {
    var k := |attempts| - 1;
    if i < k {
      SavedRepliesComplete(components[..k], attempts[..k], i);
    }
  }

  /** The pause between components: taken after every component that was not skipped,
      except the last one (`if idx < total_components`); a skipped component's `continue`
      also skips the pause. */
  function Pauses(attempts: seq<Attempt>, total: nat): (n: nat)
    requires |attempts| <= total
    ensures n <= |attempts| && (attempts != [] ==> n < total)
  {
    if attempts == [] then 0
    else
      var k := |attempts| - 1;
      Pauses(attempts[..k], total) + if !Skipped(attempts[k]) && k + 1 < total then 1 else 0
  }

  /** The main loop. `saved` lists the components whose conversion was saved, with the
      reply saved for each; `pauses` counts the three-second waits. */
  method ConvertAll(components: seq<Component>, attempts: seq<Attempt>)
    returns (converted: nat, failed: nat, saved: seq<(string, string)>, pauses: nat)
    requires |attempts| == |components|
    ensures converted + failed == |components|
    ensures converted == ConvertedCount(attempts) == |saved| && saved == SavedReplies(components, attempts)
    ensures pauses == Pauses(attempts, |components|)
  {
    converted, failed, saved, pauses := 0, 0, [], 0;
    var total := |components|;
    for idx := 0 to total
      invariant converted + failed == idx
      invariant converted == ConvertedCount(attempts[..idx])
      invariant saved == SavedReplies(components[..idx], attempts[..idx])
      invariant pauses == Pauses(attempts[..idx], total)
    {
      assert attempts[..idx + 1][..idx] == attempts[..idx];
      assert components[..idx + 1][..idx] == components[..idx];
      var a := attempts[idx];
      if a.code.None? {
        failed := failed + 1;
        continue;
      }
      if a.code.value == [] {
        failed := failed + 1;
        continue;
      }
      if a.completed {
        if a.reply.Some? && a.reply.value != [] {
          saved := saved + [(components[idx].name, a.reply.value)];
          converted := converted + 1;
        } else {
          failed := failed + 1;
        }
      } else {
        failed := failed + 1;
      }
      if idx + 1 < total {
        pauses := pauses + 1;
      }
    }
    assert attempts[..total] == attempts && components[..total] == components;
  }

  /** Every attempt that is not skipped is followed by a pause, except the last one: with
      no file skipped there are `total - 1` pauses. */
  lemma {:induction false} PausesWhenNoneSkipped(attempts: seq<Attempt>, total: nat)
    requires 0 < |attempts| <= total
    requires forall i :: 0 <= i < |attempts| ==> !Skipped(attempts[i])
    ensures Pauses(attempts, total) == if |attempts| < total then |attempts| else |attempts| - 1
  {
    var k := |attempts| - 1;
    if k > 0 {
      PausesWhenNoneSkipped(attempts[..k], total);
    } else {
      assert attempts[..k] == [];
    }
  }

  /** Nothing is converted when every run fails. */
  lemma {:induction false} NoRunNoConversion(attempts: seq<Attempt>)
    requires forall i :: 0 <= i < |attempts| ==> !attempts[i].completed
    ensures ConvertedCount(attempts) == 0
  {
    if attempts != [] {
      NoRunNoConversion(attempts[..|attempts| - 1]);
    }
  }

  /** Everything is converted exactly when every attempt converts. */
  lemma {:induction false} AllConverted(attempts: seq<Attempt>)
    ensures ConvertedCount(attempts) == |attempts| <==> forall i :: 0 <= i < |attempts| ==> Converts(attempts[i])
  {
    if attempts != [] {
      var k := |attempts| - 1;
      AllConverted(attempts[..k]);
      if forall i :: 0 <= i < |attempts| ==> Converts(attempts[i]) {
        assert forall i :: 0 <= i < k ==> Converts(attempts[..k][i]);
      }
      if ConvertedCount(attempts) == |attempts| {
        forall i | 0 <= i < |attempts| ensures Converts(attempts[i]) {
          if i < k {
            assert attempts[..k][i] == attempts[i];
          }
        }
      }
    }
  }

  /** `main` after the key and configuration are loaded: the list holds 21 components and
      the loop runs over all of them. */
  method ConvertComponents(attempts: seq<Attempt>) returns (converted: nat, failed: nat)
    requires |attempts| == |Components|
    ensures |Components| == 21
    ensures converted + failed == 21 && converted == ConvertedCount(attempts)
  {
    var saved, pauses;
    converted, failed, saved, pauses := ConvertAll(Components, attempts);
  }
}
