/**
 * The profile panel's status-message editor: a flag for edit mode, the text
 * being edited, the drop-down selection, and the loaded profile, which stays
 * `null` until the profile response arrives.
 */
module UserProfile {
  import opened Wrappers

  /** The fields of the loaded profile that the editor reads or writes. */
  datatype Profile = Profile(id: string, statusMessage: string)

  /** The `UpdateProfile` body sent by `saveStatusMessage` and echoed in its response. */
  datatype UpdateProfile = UpdateProfile(userId: string, statusMessage: string)

  class UserProfileComponent {
    var profileDetails: Option<Profile>
    var editedStatusMessage: string
    var isEditingStatusMessage: bool
    var selectedStatusMessage: string

    constructor ()
      ensures profileDetails == None && editedStatusMessage == ""
      ensures !isEditingStatusMessage && selectedStatusMessage == ""
    {
      profileDetails := None;
      editedStatusMessage := "";
      isEditingStatusMessage := false;
      selectedStatusMessage := "";
    }

    /** The profile response requested in `ngOnInit`. */
    method OnProfileLoaded(data: Profile)
      modifies this`profileDetails
      ensures profileDetails == Some(data)
    {
      profileDetails := Some(data);
    }

    /**
     * `toggleEdit`. The flag always flips; entering edit mode copies the profile's
     * status message. `ok` is false when that copy dereferences a `null` profile,
     * which throws after the flag has flipped.
     */
    method ToggleEdit() returns (ok: bool)
      modifies this`isEditingStatusMessage, this`editedStatusMessage
      ensures isEditingStatusMessage == !old(isEditingStatusMessage)
      ensures ok <==> !isEditingStatusMessage || profileDetails.Some?
      ensures isEditingStatusMessage && profileDetails.Some? ==>
        editedStatusMessage == profileDetails.value.statusMessage
      ensures !(isEditingStatusMessage && profileDetails.Some?) ==>
        editedStatusMessage == old(editedStatusMessage)
    {
      ok := true;
      isEditingStatusMessage := !isEditingStatusMessage;
      if isEditingStatusMessage {
        if profileDetails.None? {
          ok := false;
          return;
        }
        editedStatusMessage := profileDetails.value.statusMessage;
      }
    }

    /**
     * `saveStatusMessage` as issued: nothing changes until the response arrives.
     * `None` is the throw of `profileDetails!.id` on a `null` profile.
     */
    method SaveStatusMessage() returns (request: Option<UpdateProfile>)
      ensures request.Some? <==> profileDetails.Some?
      ensures request.Some? ==>
        request.value.userId == profileDetails.value.id
        && request.value.statusMessage == editedStatusMessage
    {
      if profileDetails.None? {
        return None;
      }
      request := Some(UpdateProfile(profileDetails.value.id, editedStatusMessage));
    }

    /** The successful update response: the profile takes the echoed status message and edit mode ends. */
    method OnStatusMessageSaved(response: UpdateProfile) returns (ok: bool)
      modifies this`profileDetails, this`isEditingStatusMessage
      ensures ok <==> old(profileDetails).Some?
      ensures ok ==> profileDetails == Some(old(profileDetails).value.(statusMessage := response.statusMessage))
      ensures ok ==> !isEditingStatusMessage
      ensures !ok ==> profileDetails == old(profileDetails) && isEditingStatusMessage == old(isEditingStatusMessage)
    {
      if profileDetails.None? {
        return false;
      }
      profileDetails := Some(profileDetails.value.(statusMessage := response.statusMessage));
      isEditingStatusMessage := false;
      ok := true;
    }

    /** `onStatusMessageSelect`: the drop-down choice becomes the edited text and the choice is cleared. */
    method OnStatusMessageSelect()
      modifies this`editedStatusMessage, this`selectedStatusMessage
      ensures editedStatusMessage == old(selectedStatusMessage) && selectedStatusMessage == ""
    {
      editedStatusMessage := selectedStatusMessage;
      selectedStatusMessage := "";
    }

    /** `cancelEdit`: leaves edit mode; the profile and the edited text stay as they are. */
    method CancelEdit()
      modifies this`isEditingStatusMessage
      ensures !isEditingStatusMessage
    {
      isEditingStatusMessage := false;
    }
  }
}
